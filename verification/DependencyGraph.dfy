/** Building the graph of dependent Deployments for a create request: the mutual recursion
    of initDeployment and addDepAndRelationships over the requirements in the catalog. */
module DependencyGraph {
  import Deployments


  /** The "name/version/profile" string by which the code compares packages. */
  type PackageId = string

  /** `apps` lists, for each application of the package, the packages it requires. */
  datatype Package = Package(forbids: bool, apps: seq<seq<PackageId>>)

  type Catalog = map<PackageId, Package>

  /** A name is freshly generated, or taken over from a Deployment that is stored already. */
  datatype NodeName = Fresh(serial: nat) | Stored(name: string)

  /** One Deployment object under construction; pointers are indices into the node list. */
  datatype Node = Node(pkg: PackageId, name: NodeName, children: map<NodeName, nat>, required: set<PackageId>)

  datatype Outcome = Built(node: nat) | Failed | IndexPanic

  function SetOf(s: seq<PackageId>): set<PackageId> {
    set i | 0 <= i < |s| :: s[i]
  }

  function RequiredBy(apps: seq<seq<PackageId>>): set<PackageId> {
    set i, j | 0 <= i < |apps| && 0 <= j < |apps[i]| :: apps[i][j]
  }

  /** The requirements `done` and the first `n` of `required`. */
  function With(done: multiset<PackageId>, required: seq<PackageId>, n: nat): multiset<PackageId>
    requires n <= |required|
  {
    if n == 0 then done else With(done, required, n - 1) + multiset{required[n - 1]}
  }

  /** Every requirement of the first `n` applications, as often as it is there. */
  function Needed(apps: seq<seq<PackageId>>, n: nat): multiset<PackageId>
    requires n <= |apps|
  {
    if n == 0 then multiset{} else With(Needed(apps, n - 1), apps[n - 1], |apps[n - 1]|)
  }

  function NeededBy(catalog: Catalog, p: PackageId): multiset<PackageId> {
    if p in catalog then Needed(catalog[p].apps, |catalog[p].apps|) else multiset{}
  }

  /** Where among its first `n` requirements application number `a` has the package, and where
      the first `n` applications have it. */
  function PlacesIn(required: seq<PackageId>, a: nat, n: nat, q: PackageId): set<(nat, nat)> {
    set b: nat | b < |required| && b < n && required[b] == q :: (a, b)
  }

  function Places(apps: seq<seq<PackageId>>, n: nat, q: PackageId): set<(nat, nat)> {
    set a: nat, b: nat | a < |apps| && a < n && b < |apps[a]| && apps[a][b] == q :: (a, b)
  }

  lemma {:induction false} WithCounts(done: multiset<PackageId>, required: seq<PackageId>, a: nat, n: nat, q: PackageId)
    requires n <= |required|
    ensures With(done, required, n)[q] == done[q] + |PlacesIn(required, a, n, q)|
  {
    if n == 0 {
      assert PlacesIn(required, a, n, q) == {};
    } else {
      WithCounts(done, required, a, n - 1, q);
      var more: set<(nat, nat)> := if required[n - 1] == q then {(a, n - 1)} else {};
      assert PlacesIn(required, a, n, q) == PlacesIn(required, a, n - 1, q) + more;
    }
  }

  lemma {:induction false} NeededCounts(apps: seq<seq<PackageId>>, n: nat, q: PackageId)
    requires n <= |apps|
    ensures Needed(apps, n)[q] == |Places(apps, n, q)|
  {
    if n == 0 {
      assert Places(apps, n, q) == {};
    } else {
      var last := apps[n - 1];
      NeededCounts(apps, n - 1, q);
      WithCounts(Needed(apps, n - 1), last, n - 1, |last|, q);
      assert Places(apps, n, q) == Places(apps, n - 1, q) + PlacesIn(last, n - 1, |last|, q);
    }
  }

  lemma NeededIsRequired(apps: seq<seq<PackageId>>, q: PackageId)
    ensures q in Needed(apps, |apps|) <==> q in RequiredBy(apps)
  {
    NeededCounts(apps, |apps|, q);
    if x :| x in Places(apps, |apps|, q) {
      assert apps[x.0][x.1] in RequiredBy(apps);
      assert {x} <= Places(apps, |apps|, q);
    }
    if q in RequiredBy(apps) {
      var a, b :| 0 <= a < |apps| && 0 <= b < |apps[a]| && apps[a][b] == q;
      assert (a, b) in Places(apps, |apps|, q);
    }
  }

  function Requires(catalog: Catalog, p: PackageId): set<PackageId> {
    if p in catalog then RequiredBy(catalog[p].apps) else {}
  }

  /** The requirement relation is acyclic: every requirement has a smaller rank. */
  ghost predicate Ranked(catalog: Catalog, rank: map<PackageId, nat>) {
    && catalog.Keys <= rank.Keys
    && forall p, q | p in catalog && q in Requires(catalog, p) && q in catalog :: rank[q] < rank[p]
  }

  /** For each package, the stored Deployments of it in the project. */
  type Existing = map<PackageId, seq<string>>

  /** A stored Deployment belongs to one package. */
  ghost predicate OnePackageEach(existing: Existing) {
    forall p, q | p in existing && q in existing && p != q ::
      forall s | s in existing[p] :: s !in existing[q]
  }

  function StoredNames(existing: Existing, p: PackageId): seq<string> {
    if p in existing then existing[p] else []
  }

  predicate Forbids(catalog: Catalog, p: PackageId) {
    p in catalog && catalog[p].forbids
  }

  /** A required package for which no dependent Deployment can be set up: it is unknown, it
      has no applications to give the target clusters to, or it forbids multiple
      deployments and yet several of them are stored. */
  predicate Defective(catalog: Catalog, existing: Existing, p: PackageId) {
    || p !in catalog
    || |catalog[p].apps| == 0
    || (catalog[p].forbids && |StoredNames(existing, p)| > 1)
  }

  /** The lookup of a package looks up everything it requires as well. */
  predicate LooksUp(catalog: Catalog, p: PackageId) {
    p in catalog && Requires(catalog, p) <= catalog.Keys
  }

  /** Target clusters would have to be handed on to a package with applications. */
  predicate NeedsTargets(catalog: Catalog, q: PackageId) {
    LooksUp(catalog, q) && |catalog[q].apps| > 0
  }

  /** The first package that the applications require. */
  function FirstOf(apps: seq<seq<PackageId>>): Deployments.Option<PackageId> {
    if apps == [] then Deployments.None else if apps[0] != [] then Deployments.Some(apps[0][0]) else FirstOf(apps[1..])
  }

  /** Without target clusters, the first requirement decides. */
  predicate PanicsOn(catalog: Catalog, p: PackageId) {
    LooksUp(catalog, p) &&
    match FirstOf(catalog[p].apps) case None => false case Some(q) => NeedsTargets(catalog, q)
  }

  lemma FirstFrom(apps: seq<seq<PackageId>>, a: nat)
    requires a < |apps|
    ensures FirstOf(apps[a..]) == if apps[a] != [] then Deployments.Some(apps[a][0]) else FirstOf(apps[a + 1..])
  {
    assert apps[a..][1..] == apps[a + 1..];
  }

  lemma {:induction false} NothingRequiredIff(apps: seq<seq<PackageId>>)
    ensures RequiredBy(apps) == {} <==> FirstOf(apps) == Deployments.None
  {
    if apps != [] {
      NothingRequiredIff(apps[1..]);
      assert RequiredBy(apps) == SetOf(apps[0]) + RequiredBy(apps[1..]) by {
        assert apps == [apps[0]] + apps[1..];
      }
      assert apps[0] == [] || apps[0][0] in SetOf(apps[0]);
    }
  }

  lemma UnknownIsDefect(catalog: Catalog, existing: Existing, p: PackageId)
    requires p in catalog && !LooksUp(catalog, p)
    ensures DefectBelow(catalog, existing, p)
  {
    var q :| q in Requires(catalog, p) && q !in catalog;
    DefectAbove(catalog, existing, p, q);
  }

  ghost predicate IsRequirementPath(catalog: Catalog, path: seq<PackageId>, p: PackageId, q: PackageId) {
    && path != [] && path[0] == p && path[|path| - 1] == q
    && forall i, j | 0 <= i && j == i + 1 < |path| :: path[j] in Requires(catalog, path[i])
  }

  ghost predicate RequiresTransitively(catalog: Catalog, p: PackageId, q: PackageId) {
    exists path :: IsRequirementPath(catalog, path, p, q)
  }

  ghost predicate DefectBelow(catalog: Catalog, existing: Existing, p: PackageId) {
    exists q, bad :: q in Requires(catalog, p) && RequiresTransitively(catalog, q, bad) && Defective(catalog, existing, bad)
  }

  lemma PathGrows(catalog: Catalog, path: seq<PackageId>, p: PackageId, q: PackageId, r: PackageId)
    ensures IsRequirementPath(catalog, path, q, r) && q in Requires(catalog, p) ==>
              IsRequirementPath(catalog, [p] + path, p, r)
    ensures IsRequirementPath(catalog, path, p, q) && r in Requires(catalog, q) ==>
              IsRequirementPath(catalog, path + [r], p, r)
  {
  }

  lemma DefectAbove(catalog: Catalog, existing: Existing, p: PackageId, q: PackageId)
    requires q in Requires(catalog, p)
    requires Defective(catalog, existing, q) || DefectBelow(catalog, existing, q)
    ensures DefectBelow(catalog, existing, p)
  {
    if Defective(catalog, existing, q) {
      assert IsRequirementPath(catalog, [q], q, q);
    } else {
      var r, bad :| r in Requires(catalog, q) && RequiresTransitively(catalog, r, bad) && Defective(catalog, existing, bad);
      var path :| IsRequirementPath(catalog, path, r, bad);
      PathGrows(catalog, path, q, r, bad);
    }
  }

  // ---------------------------------------------------------------------------
  // What a finished graph looks like
  // ---------------------------------------------------------------------------

  /** Node `i` is a value of `deps`: it is entered under the name it was generated with. */
  predicate IsDependent(deps: map<NodeName, nat>, i: nat) {
    Fresh(i) in deps && deps[Fresh(i)] == i
  }

  predicate IsChild(nodes: seq<Node>, p: nat, i: nat) {
    && p < |nodes| && i < |nodes|
    && nodes[i].name in nodes[p].children && nodes[p].children[nodes[i].name] == i
  }

  /** Every child of node `i` is a dependent entered under its own name. */
  ghost predicate ChildrenFit(nodes: seq<Node>, deps: map<NodeName, nat>, i: nat) {
    && i < |nodes|
    && forall k | k in nodes[i].children ::
         var c := nodes[i].children[k]; IsDependent(deps, c) && IsChild(nodes, i, c) && nodes[c].name == k
  }

  ghost function ChildrenOf(nodes: seq<Node>, i: nat, q: PackageId): set<NodeName>
    requires i < |nodes| && forall k | k in nodes[i].children :: nodes[i].children[k] < |nodes|
  {
    set k | k in nodes[i].children && nodes[nodes[i].children[k]].pkg == q
  }

  /** How many children stand for the requirements of `q`: one for each, but only one for all of
      them if the package forbids multiple deployments. */
  function Wanted(catalog: Catalog, done: multiset<PackageId>, q: PackageId): nat {
    if Forbids(catalog, q) && q in done then 1 else done[q]
  }

  /** The children of node `i` stand for exactly the requirements `done`. */
  ghost predicate Joined(catalog: Catalog, nodes: seq<Node>, deps: map<NodeName, nat>, i: nat, done: multiset<PackageId>) {
    ChildrenFit(nodes, deps, i) && forall q :: |ChildrenOf(nodes, i, q)| == Wanted(catalog, done, q)
  }

  /** Where neither the children nor their packages differ, the counts are the same. */
  lemma SameChildren(nodes: seq<Node>, nodes': seq<Node>, deps: map<NodeName, nat>, i: nat)
    requires ChildrenFit(nodes, deps, i) && |nodes| <= |nodes'| && nodes'[i].children == nodes[i].children
    requires forall k | k in nodes[i].children :: nodes'[nodes[i].children[k]].pkg == nodes[nodes[i].children[k]].pkg
    ensures forall q :: ChildrenOf(nodes', i, q) == ChildrenOf(nodes, i, q)
  {
  }

  lemma ChildrenForWanted(catalog: Catalog, nodes: seq<Node>, deps: map<NodeName, nat>, i: nat,
                          done: multiset<PackageId>, q: PackageId)
    requires Joined(catalog, nodes, deps, i, done)
    ensures q in done <==> exists k :: k in ChildrenOf(nodes, i, q)
  {
    if q in done {
      assert |ChildrenOf(nodes, i, q)| > 0;
      assert ChildrenOf(nodes, i, q) != {};
    }
    if k :| k in ChildrenOf(nodes, i, q) {
      assert {k} <= ChildrenOf(nodes, i, q);
      assert |ChildrenOf(nodes, i, q)| > 0;
    }
  }

  ghost predicate NameFits(catalog: Catalog, existing: Existing, nodes: seq<Node>, i: nat)
    requires i < |nodes|
  {
    nodes[i].name in {Fresh(i), FinalName(catalog, existing, nodes[i].pkg, i)}
  }

  /** A dependent on a package that forbids multiple deployments stands for the one stored
      Deployment of it, if there is one. */
  function FinalName(catalog: Catalog, existing: Existing, p: PackageId, i: nat): NodeName {
    if Forbids(catalog, p) && |StoredNames(existing, p)| == 1 then Stored(StoredNames(existing, p)[0]) else Fresh(i)
  }

  ghost predicate Admissible(catalog: Catalog, existing: Existing, nodes: seq<Node>, i: nat) {
    i < |nodes| && !Defective(catalog, existing, nodes[i].pkg) && nodes[i].name == FinalName(catalog, existing, nodes[i].pkg, i)
  }

  ghost predicate HasParent(nodes: seq<Node>, i: nat) {
    exists p: nat :: IsChild(nodes, p, i)
  }

  ghost predicate Finished(catalog: Catalog, nodes: seq<Node>, deps: map<NodeName, nat>, i: nat) {
    && i < |nodes|
    && Joined(catalog, nodes, deps, i, NeededBy(catalog, nodes[i].pkg))
    && nodes[i].required == Requires(catalog, nodes[i].pkg)
    && nodes[i].pkg in catalog
  }

  /** Every value of `deps` is a finished node with a parent; a package that forbids
      multiple deployments is there at most once. */
  ghost predicate Fits(catalog: Catalog, existing: Existing, nodes: seq<Node>, deps: map<NodeName, nat>) {
    && (forall k | k in deps :: k == Fresh(deps[k]))
    && (forall i: nat | i < |nodes| :: NameFits(catalog, existing, nodes, i))
    && (forall i: nat | IsDependent(deps, i) :: 
          && Finished(catalog, nodes, deps, i) && HasParent(nodes, i)
          && Admissible(catalog, existing, nodes, i))
    && (forall i: nat, j: nat | IsDependent(deps, i) && IsDependent(deps, j)
                                && nodes[i].pkg == nodes[j].pkg && Forbids(catalog, nodes[i].pkg) :: i == j)
  }

  /** `nodes` and `deps` extend what was there before a call: nothing but node `open` was
      touched, and the new nodes from `first` on are dependents that rank below `limit`. */
  ghost predicate Extends(rank: map<PackageId, nat>, nodes0: seq<Node>, deps0: map<NodeName, nat>,
                          nodes: seq<Node>, deps: map<NodeName, nat>, open: nat, first: nat, limit: nat) {
    && |nodes0| <= |nodes|
    && (forall i: nat | i < |nodes0| && i != open :: nodes[i] == nodes0[i])
    && (forall i: nat | IsDependent(deps0, i) :: IsDependent(deps, i))
    && (forall i: nat | IsDependent(deps, i) && !IsDependent(deps0, i) :: first <= i)
    && (forall i: nat | first <= i < |nodes| ::
          IsDependent(deps, i) && nodes[i].pkg in rank && rank[nodes[i].pkg] < limit)
  }

  /** Two dependents under one name are the same node. */
  lemma NamesIdentify(catalog: Catalog, existing: Existing, nodes: seq<Node>, deps: map<NodeName, nat>, i: nat, j: nat)
    requires OnePackageEach(existing) && Fits(catalog, existing, nodes, deps)
    requires IsDependent(deps, i) && IsDependent(deps, j) && nodes[i].name == nodes[j].name
    ensures i == j
  {
    assert NameFits(catalog, existing, nodes, i) && NameFits(catalog, existing, nodes, j);
    if nodes[i].name.Stored? {
      var name := nodes[i].name.name;
      assert name in StoredNames(existing, nodes[i].pkg) && name in StoredNames(existing, nodes[j].pkg);
    }
  }

  /** A node that is no dependent may change as it likes, as long as it keeps its children. */
  lemma OpenNodeIsFree(catalog: Catalog, existing: Existing, nodes: seq<Node>, nodes': seq<Node>,
                       deps: map<NodeName, nat>, open: nat)
    requires Fits(catalog, existing, nodes, deps) && !IsDependent(deps, open)
    requires |nodes'| == |nodes| && open < |nodes| && NameFits(catalog, existing, nodes', open)
    requires forall j: nat | j < |nodes| && j != open :: nodes'[j] == nodes[j]
    requires forall k | k in nodes[open].children ::
               k in nodes'[open].children && nodes'[open].children[k] == nodes[open].children[k]
    ensures Fits(catalog, existing, nodes', deps)
  {
    forall i: nat | IsDependent(deps, i)
      ensures Finished(catalog, nodes', deps, i) && HasParent(nodes', i) && Admissible(catalog, existing, nodes', i)
    {
      assert Finished(catalog, nodes, deps, i) && HasParent(nodes, i);
      OthersStayFinished(catalog, nodes, nodes', deps, open, i);
      var p: nat :| IsChild(nodes, p, i);
      assert IsChild(nodes', p, i);
    }
    forall i: nat | i < |nodes'| ensures NameFits(catalog, existing, nodes', i) {
      assert NameFits(catalog, existing, nodes, i);
    }
  }

  lemma OthersStayFinished(catalog: Catalog, nodes: seq<Node>, nodes': seq<Node>, deps: map<NodeName, nat>, open: nat, i: nat)
    requires |nodes'| == |nodes| && i != open && !IsDependent(deps, open)
    requires forall j: nat | j < |nodes| && j != open :: nodes'[j] == nodes[j]
    requires Finished(catalog, nodes, deps, i)
    ensures Finished(catalog, nodes', deps, i)
  {
    assert forall k | k in nodes[i].children :: nodes'[nodes[i].children[k]] == nodes[nodes[i].children[k]];
    SameChildren(nodes, nodes', deps, i);
  }

  /** A finished node with a parent becomes a dependent. */
  lemma DependentsGrow(catalog: Catalog, existing: Existing, nodes: seq<Node>, deps: map<NodeName, nat>, c: nat)
    requires Fits(catalog, existing, nodes, deps)
    requires Finished(catalog, nodes, deps, c) && HasParent(nodes, c) && Admissible(catalog, existing, nodes, c)
    requires Forbids(catalog, nodes[c].pkg) ==> forall i: nat | IsDependent(deps, i) :: nodes[i].pkg != nodes[c].pkg
    ensures Fits(catalog, existing, nodes, deps[Fresh(c) := c])
  {
    var deps' := deps[Fresh(c) := c];
    assert forall i: nat :: IsDependent(deps', i) <==> IsDependent(deps, i) || i == c;
    forall i: nat | IsDependent(deps', i) ensures Finished(catalog, nodes, deps', i) {
      assert Finished(catalog, nodes, deps, i);
    }
  }

  /** `nodes'` is `nodes` with `c` registered as a child of `open`. */
  ghost predicate Registered(nodes: seq<Node>, open: nat, c: nat, nodes': seq<Node>) {
    && open < |nodes| && c < |nodes|
    && nodes' == nodes[open := nodes[open].(children := nodes[open].children[nodes[c].name := c])]
  }

  lemma RegisteredFit(nodes: seq<Node>, deps: map<NodeName, nat>, open: nat, c: nat, nodes': seq<Node>)
    requires Registered(nodes, open, c, nodes') && IsDependent(deps, c) && ChildrenFit(nodes, deps, open)
    ensures ChildrenFit(nodes', deps, open)
  {
    var before, after := nodes[open].children, nodes'[open].children;
    assert forall i: nat | i < |nodes| :: nodes'[i].pkg == nodes[i].pkg && nodes'[i].name == nodes[i].name;
    forall k | k in after
      ensures var d := after[k]; IsDependent(deps, d) && IsChild(nodes', open, d) && nodes'[d].name == k
    {
      if k != nodes[c].name {
        assert IsChild(nodes, open, before[k]);
      }
    }
  }

  lemma RegisteredCounts(nodes: seq<Node>, deps: map<NodeName, nat>, open: nat, c: nat, nodes': seq<Node>, q: PackageId)
    requires Registered(nodes, open, c, nodes') && ChildrenFit(nodes, deps, open)
    requires nodes[c].name !in nodes[open].children
    ensures ChildrenFit(nodes', deps, open) ==>
              |ChildrenOf(nodes', open, q)| == |ChildrenOf(nodes, open, q)| + (if q == nodes[c].pkg then 1 else 0)
  {
    var before, name := nodes[open].children, nodes[c].name;
    assert nodes'[open].children == before[name := c];
    assert forall i: nat | i < |nodes| :: nodes'[i].pkg == nodes[i].pkg;
    if ChildrenFit(nodes', deps, open) {
      assert ChildrenOf(nodes', open, q) == ChildrenOf(nodes, open, q) + (if q == nodes[c].pkg then {name} else {});
    }
  }

  lemma RegisteredJoined(catalog: Catalog, nodes: seq<Node>, deps: map<NodeName, nat>, open: nat, c: nat,
                         done: multiset<PackageId>, nodes': seq<Node>)
    requires Registered(nodes, open, c, nodes') && IsDependent(deps, c)
    requires nodes[c].name !in nodes[open].children && (Forbids(catalog, nodes[c].pkg) ==> nodes[c].pkg !in done)
    requires Joined(catalog, nodes, deps, open, done)
    ensures Joined(catalog, nodes', deps, open, done + multiset{nodes[c].pkg})
  {
    RegisteredFit(nodes, deps, open, c, nodes');
    forall q
      ensures |ChildrenOf(nodes', open, q)| == Wanted(catalog, done + multiset{nodes[c].pkg}, q)
    {
      RegisteredCounts(nodes, deps, open, c, nodes', q);
    }
  }

  /** Registering the one dependent of its package as a child of the unfinished node `open`. */
  lemma JoinChild(catalog: Catalog, existing: Existing, nodes: seq<Node>, deps: map<NodeName, nat>,
                  open: nat, c: nat, done: multiset<PackageId>, nodes': seq<Node>)
    requires OnePackageEach(existing) && Fits(catalog, existing, nodes, deps) && c < |nodes| && Forbids(catalog, nodes[c].pkg)
    requires Joined(catalog, nodes, deps, open, done) && !IsDependent(deps, open) && IsDependent(deps, c)
    requires Registered(nodes, open, c, nodes')
    ensures Fits(catalog, existing, nodes', deps)
    ensures Joined(catalog, nodes', deps, open, done + multiset{nodes[c].pkg})
  {
    var before, name, q := nodes[open].children, nodes[c].name, nodes[c].pkg;
    ChildrenForWanted(catalog, nodes, deps, open, done, q);
    if name in before {
      NamesIdentify(catalog, existing, nodes, deps, before[name], c);
      assert before[name := c] == before;
      assert nodes' == nodes;
      assert name in ChildrenOf(nodes, open, q);
    } else {
      assert NameFits(catalog, existing, nodes, open);
      OpenNodeIsFree(catalog, existing, nodes, nodes', deps, open);
      OnlyChildOf(catalog, existing, nodes, deps, open, c);
      RegisteredJoined(catalog, nodes, deps, open, c, done, nodes');
    }
  }

  /** The only name under which a forbidding package can be a child is that of its node. */
  lemma OnlyChildOf(catalog: Catalog, existing: Existing, nodes: seq<Node>, deps: map<NodeName, nat>, open: nat, c: nat)
    requires Fits(catalog, existing, nodes, deps) && ChildrenFit(nodes, deps, open)
    requires c < |nodes| && IsDependent(deps, c) && Forbids(catalog, nodes[c].pkg)
    ensures ChildrenOf(nodes, open, nodes[c].pkg) <= {nodes[c].name}
  {
  }

  /** A finished node that becomes a dependent and a child of `open` in one go. */
  lemma AddDependent(catalog: Catalog, existing: Existing, nodes: seq<Node>, deps: map<NodeName, nat>,
                     open: nat, c: nat, done: multiset<PackageId>, nodes': seq<Node>, deps': map<NodeName, nat>)
    requires OnePackageEach(existing) && Fits(catalog, existing, nodes, deps)
    requires Joined(catalog, nodes, deps, open, done) && !IsDependent(deps, open) && open != c
    requires Finished(catalog, nodes, deps, c) && !IsDependent(deps, c) && NameFits(catalog, existing, nodes, c)
    requires Forbids(catalog, nodes[c].pkg) ==> forall i: nat | IsDependent(deps, i) :: nodes[i].pkg != nodes[c].pkg
    requires nodes[c].name !in nodes[open].children && Admissible(catalog, existing, nodes, c)
    requires Registered(nodes, open, c, nodes') && deps' == deps[Fresh(c) := c]
    ensures Fits(catalog, existing, nodes', deps')
    ensures Joined(catalog, nodes', deps', open, done + multiset{nodes[c].pkg})
    ensures !IsDependent(deps', open)
  {
    assert NameFits(catalog, existing, nodes, open);
    OpenNodeIsFree(catalog, existing, nodes, nodes', deps, open);
    OthersStayFinished(catalog, nodes, nodes', deps, open, c);
    assert IsChild(nodes', open, c);
    DependentsGrow(catalog, existing, nodes', deps, c);
    JoinedGrows(catalog, nodes, deps, open, c, done);
    ChildrenForWanted(catalog, nodes, deps, open, done, nodes[c].pkg);
    RegisteredJoined(catalog, nodes, deps', open, c, done, nodes');
  }

  lemma JoinedGrows(catalog: Catalog, nodes: seq<Node>, deps: map<NodeName, nat>, i: nat, c: nat, done: multiset<PackageId>)
    requires Joined(catalog, nodes, deps, i, done)
    ensures Joined(catalog, nodes, deps[Fresh(c) := c], i, done)
  {
  }

  lemma AppendFits(catalog: Catalog, existing: Existing, nodes: seq<Node>, deps: map<NodeName, nat>, p: PackageId)
    requires Fits(catalog, existing, nodes, deps)
    ensures Fits(catalog, existing, nodes + [Node(p, Fresh(|nodes|), map[], {})], deps)
  {
    var nodes' := nodes + [Node(p, Fresh(|nodes|), map[], {})];
    forall i: nat | IsDependent(deps, i)
      ensures Finished(catalog, nodes', deps, i) && HasParent(nodes', i) && Admissible(catalog, existing, nodes', i)
    {
      assert Finished(catalog, nodes, deps, i) && HasParent(nodes, i);
      assert forall k | k in nodes[i].children :: nodes'[nodes[i].children[k]] == nodes[nodes[i].children[k]];
      SameChildren(nodes, nodes', deps, i);
      var parent: nat :| IsChild(nodes, parent, i);
      assert IsChild(nodes', parent, i);
    }
    forall i: nat | i < |nodes'| ensures NameFits(catalog, existing, nodes', i) {
      assert i < |nodes| ==> NameFits(catalog, existing, nodes, i);
    }
  }

  lemma OpenChangeExtends(rank: map<PackageId, nat>, nodes0: seq<Node>, nodes: seq<Node>, deps: map<NodeName, nat>,
                          open: nat, limit: nat)
    requires |nodes| == |nodes0| && forall i: nat | i < |nodes| && i != open :: nodes[i] == nodes0[i]
    ensures Extends(rank, nodes0, deps, nodes, deps, open, |nodes0|, limit)
  {
  }

  lemma RegisteredExtends(rank: map<PackageId, nat>, nodes0: seq<Node>, nodes: seq<Node>, deps: map<NodeName, nat>,
                          open: nat, c: nat, limit: nat)
    requires Registered(nodes0, open, c, nodes)
    ensures Extends(rank, nodes0, deps, nodes, deps, open, |nodes0|, limit)
    ensures nodes[open] == nodes0[open].(children := nodes[open].children)
  {
  }

  lemma ExtendsCompose(rank: map<PackageId, nat>, nodes0: seq<Node>, deps0: map<NodeName, nat>,
                       nodes1: seq<Node>, deps1: map<NodeName, nat>, nodes2: seq<Node>, deps2: map<NodeName, nat>,
                       open: nat, limit: nat)
    requires open < |nodes0|
    requires Extends(rank, nodes0, deps0, nodes1, deps1, open, |nodes0|, limit)
    requires Extends(rank, nodes1, deps1, nodes2, deps2, open, |nodes1|, limit)
    ensures Extends(rank, nodes0, deps0, nodes2, deps2, open, |nodes0|, limit)
  {
  }

  lemma JoinedKeeps(catalog: Catalog, nodes: seq<Node>, nodes': seq<Node>, deps: map<NodeName, nat>,
                    open: nat, done: multiset<PackageId>)
    requires Joined(catalog, nodes, deps, open, done) && |nodes| <= |nodes'|
    requires forall i: nat | i < |nodes| :: nodes'[i].name == nodes[i].name && nodes'[i].pkg == nodes[i].pkg
    requires nodes'[open].children == nodes[open].children
    ensures Joined(catalog, nodes', deps, open, done)
  {
    forall k | k in nodes[open].children ensures IsChild(nodes', open, nodes[open].children[k]) {
      assert IsChild(nodes, open, nodes[open].children[k]);
    }
    SameChildren(nodes, nodes', deps, open);
  }

  ghost predicate NoneOf(nodes: seq<Node>, deps: map<NodeName, nat>, p: PackageId) {
    forall i: nat | IsDependent(deps, i) && i < |nodes| :: nodes[i].pkg != p
  }

  /** The recursion for `p` leaves the unfinished node `open` as it was, and makes no
      second node for `p`. */
  lemma BelowIsSeparate(catalog: Catalog, rank: map<PackageId, nat>, nodes0: seq<Node>, deps0: map<NodeName, nat>,
                        nodes: seq<Node>, deps: map<NodeName, nat>, open: nat, p: PackageId, done: multiset<PackageId>)
    requires Joined(catalog, nodes0, deps0, open, done) && !IsDependent(deps0, open)
    requires p in rank && !IsDependent(deps, |nodes0|)
    requires Extends(rank, nodes0, deps0, nodes, deps, |nodes0|, |nodes0| + 1, rank[p])
    ensures Joined(catalog, nodes, deps, open, done) && !IsDependent(deps, open) && nodes[open] == nodes0[open]
    ensures NoneOf(nodes0, deps0, p) ==> NoneOf(nodes, deps, p)
  {
    JoinedKeeps(catalog, nodes0, nodes, deps0, open, done);
  }

  /** Node `c` gets the name under which its package is going to be deployed. */
  ghost predicate Renamed(catalog: Catalog, existing: Existing, nodes: seq<Node>, nodes': seq<Node>, c: nat) {
    && c < |nodes| && !Defective(catalog, existing, nodes[c].pkg)
    && nodes' == nodes[c := nodes[c].(name := FinalName(catalog, existing, nodes[c].pkg, c))]
  }

  lemma RenamedFits(catalog: Catalog, existing: Existing, nodes: seq<Node>, nodes': seq<Node>,
                    deps: map<NodeName, nat>, c: nat)
    requires Fits(catalog, existing, nodes, deps) && Renamed(catalog, existing, nodes, nodes', c)
    requires Finished(catalog, nodes, deps, c) && !IsDependent(deps, c)
    ensures Fits(catalog, existing, nodes', deps)
    ensures Finished(catalog, nodes', deps, c) && Admissible(catalog, existing, nodes', c) && NameFits(catalog, existing, nodes', c)
  {
    OpenNodeIsFree(catalog, existing, nodes, nodes', deps, c);
    assert forall k | k in nodes[c].children :: nodes'[nodes[c].children[k]] == nodes[nodes[c].children[k]];
    SameChildren(nodes, nodes', deps, c);
  }

  lemma RenamedJoined(catalog: Catalog, existing: Existing, nodes: seq<Node>, nodes': seq<Node>,
                      deps: map<NodeName, nat>, open: nat, c: nat, done: multiset<PackageId>)
    requires Renamed(catalog, existing, nodes, nodes', c) && open != c && !IsDependent(deps, c)
    requires Joined(catalog, nodes, deps, open, done)
    ensures Joined(catalog, nodes', deps, open, done) && nodes'[open] == nodes[open]
    ensures NoneOf(nodes, deps, nodes[c].pkg) ==> NoneOf(nodes', deps, nodes'[c].pkg)
  {
    assert forall k | k in nodes[open].children :: nodes'[nodes[open].children[k]] == nodes[nodes[open].children[k]];
    SameChildren(nodes, nodes', deps, open);
  }

  lemma NameIsNew(catalog: Catalog, existing: Existing, nodes: seq<Node>, deps: map<NodeName, nat>,
                  open: nat, c: nat, done: multiset<PackageId>)
    requires OnePackageEach(existing) && Fits(catalog, existing, nodes, deps)
    requires Joined(catalog, nodes, deps, open, done) && c < |nodes| && !IsDependent(deps, c)
    requires Forbids(catalog, nodes[c].pkg) ==> NoneOf(nodes, deps, nodes[c].pkg)
    ensures nodes[c].name !in nodes[open].children
  {
    assert NameFits(catalog, existing, nodes, c);
    forall k | k in nodes[open].children ensures k != nodes[c].name {
      var d := nodes[open].children[k];
      assert IsChild(nodes, open, d) && IsDependent(deps, d) && d != c;
      assert NameFits(catalog, existing, nodes, d);
      assert k.Stored? ==> k.name in StoredNames(existing, nodes[d].pkg);
    }
  }

  /** Naming the finished node `c` and registering it keeps everything else. */
  lemma AdoptionFits(catalog: Catalog, existing: Existing, before: seq<Node>, renamed: seq<Node>, after: seq<Node>,
                     deps: map<NodeName, nat>, deps': map<NodeName, nat>, open: nat, c: nat, done: multiset<PackageId>)
    requires OnePackageEach(existing) && Fits(catalog, existing, before, deps)
    requires Joined(catalog, before, deps, open, done) && !IsDependent(deps, open) && open != c
    requires Finished(catalog, before, deps, c) && !IsDependent(deps, c)
    requires Forbids(catalog, before[c].pkg) ==> NoneOf(before, deps, before[c].pkg)
    requires Renamed(catalog, existing, before, renamed, c)
    requires Registered(renamed, open, c, after) && deps' == deps[Fresh(c) := c]
    ensures Fits(catalog, existing, after, deps') && !IsDependent(deps', open)
    ensures Joined(catalog, after, deps', open, done + multiset{before[c].pkg})
    ensures |after| == |before| && forall i: nat | i < |before| && i != open && i != c :: after[i] == before[i]
    ensures after[open] == before[open].(children := after[open].children) && after[c].pkg == before[c].pkg
  {
    RenamedFits(catalog, existing, before, renamed, deps, c);
    RenamedJoined(catalog, existing, before, renamed, deps, open, c, done);
    NameIsNew(catalog, existing, renamed, deps, open, c, done);
    AddDependent(catalog, existing, renamed, deps, open, c, done, after, deps');
  }

  lemma AdoptedExtends(rank: map<PackageId, nat>, nodes0: seq<Node>, deps0: map<NodeName, nat>,
                       nodes1: seq<Node>, deps1: map<NodeName, nat>, nodes2: seq<Node>, deps2: map<NodeName, nat>,
                       open: nat, lower: nat, limit: nat)
    requires open < |nodes0| && lower < limit
    requires Extends(rank, nodes0, deps0, nodes1, deps1, |nodes0|, |nodes0| + 1, lower)
    requires |nodes2| == |nodes1| > |nodes0| && deps2 == deps1[Fresh(|nodes0|) := |nodes0|]
    requires forall i: nat | i < |nodes2| && i != open && i != |nodes0| :: nodes2[i] == nodes1[i]
    requires nodes2[|nodes0|].pkg in rank && rank[nodes2[|nodes0|].pkg] == lower
    ensures Extends(rank, nodes0, deps0, nodes2, deps2, open, |nodes0|, limit)
  {
    assert forall i: nat :: IsDependent(deps2, i) <==> IsDependent(deps1, i) || i == |nodes0|;
  }

  // ---------------------------------------------------------------------------
  // Parents
  // ---------------------------------------------------------------------------

  /** All children are dependents, and only the node of a package that forbids multiple
      deployments has more than one parent. */
  ghost predicate Tidy(catalog: Catalog, nodes: seq<Node>, deps: map<NodeName, nat>) {
    && (forall i: nat | i < |nodes| :: ChildrenFit(nodes, deps, i))
    && (forall i: nat, j: nat, c: nat | IsChild(nodes, i, c) && IsChild(nodes, j, c) && !Forbids(catalog, nodes[c].pkg) :: i == j)
  }

  lemma AppendIsTidy(catalog: Catalog, nodes: seq<Node>, deps: map<NodeName, nat>, p: PackageId)
    requires Tidy(catalog, nodes, deps)
    ensures Tidy(catalog, nodes + [Node(p, Fresh(|nodes|), map[], {})], deps)
  {
    var nodes' := nodes + [Node(p, Fresh(|nodes|), map[], {})];
    forall i: nat | i < |nodes'| ensures ChildrenFit(nodes', deps, i) {
      if i < |nodes| {
        assert ChildrenFit(nodes, deps, i);
      }
    }
    forall i: nat, c: nat | IsChild(nodes', i, c) ensures IsChild(nodes, i, c) && nodes'[c] == nodes[c] {
      assert i < |nodes| && ChildrenFit(nodes, deps, i);
    }
  }

  /** Noting a requirement changes neither names nor children. */
  lemma NotingIsTidy(catalog: Catalog, nodes: seq<Node>, nodes': seq<Node>, deps: map<NodeName, nat>)
    requires Tidy(catalog, nodes, deps) && |nodes'| == |nodes|
    requires forall i: nat | i < |nodes| :: nodes'[i] == nodes[i].(required := nodes'[i].required)
    ensures Tidy(catalog, nodes', deps)
  {
    forall i: nat | i < |nodes'| ensures ChildrenFit(nodes', deps, i) {
      assert ChildrenFit(nodes, deps, i);
    }
    assert forall i: nat, c: nat :: IsChild(nodes', i, c) <==> IsChild(nodes, i, c);
  }

  lemma RegisteredChildren(nodes: seq<Node>, open: nat, c: nat, nodes': seq<Node>, i: nat, d: nat)
    requires Registered(nodes, open, c, nodes')
    ensures IsChild(nodes', i, d) ==> (i == open && d == c) || IsChild(nodes, i, d)
  {
  }

  /** A shared node gets one more parent. */
  lemma SharingIsTidy(catalog: Catalog, nodes: seq<Node>, deps: map<NodeName, nat>, open: nat, c: nat, nodes': seq<Node>)
    requires Tidy(catalog, nodes, deps) && IsDependent(deps, c)
    requires Registered(nodes, open, c, nodes') && Forbids(catalog, nodes[c].pkg)
    ensures Tidy(catalog, nodes', deps)
  {
    forall i: nat | i < |nodes'| ensures ChildrenFit(nodes', deps, i) {
      assert ChildrenFit(nodes, deps, i);
      if i == open {
        RegisteredFit(nodes, deps, open, c, nodes');
      } else {
        FitElsewhere(nodes, deps, deps, open, nodes', i);
      }
    }
    forall i: nat, j: nat, d: nat | IsChild(nodes', i, d) && IsChild(nodes', j, d) && !Forbids(catalog, nodes'[d].pkg)
      ensures i == j
    {
      RegisteredChildren(nodes, open, c, nodes', i, d);
      RegisteredChildren(nodes, open, c, nodes', j, d);
    }
  }

  lemma FitElsewhere(nodes: seq<Node>, deps: map<NodeName, nat>, deps': map<NodeName, nat>, open: nat, nodes': seq<Node>, i: nat)
    requires ChildrenFit(nodes, deps, i) && |nodes'| == |nodes| && nodes'[i].children == nodes[i].children
    requires forall d: nat | IsDependent(deps, d) :: IsDependent(deps', d) && (d < |nodes| ==> nodes'[d].name == nodes[d].name)
    ensures ChildrenFit(nodes', deps', i)
  {
    forall k | k in nodes'[i].children
      ensures var d := nodes'[i].children[k]; IsDependent(deps', d) && IsChild(nodes', i, d) && nodes'[d].name == k
    {
      assert IsChild(nodes, i, nodes[i].children[k]);
    }
  }

  /** The new node `c` gets its only parent. */
  lemma AdoptionIsTidy(catalog: Catalog, existing: Existing, before: seq<Node>, renamed: seq<Node>, after: seq<Node>,
                       deps: map<NodeName, nat>, deps': map<NodeName, nat>, open: nat, c: nat)
    requires Tidy(catalog, before, deps) && !IsDependent(deps, c) && open != c
    requires Renamed(catalog, existing, before, renamed, c)
    requires Registered(renamed, open, c, after) && deps' == deps[Fresh(c) := c]
    requires ChildrenFit(after, deps', open)
    ensures Tidy(catalog, after, deps')
  {
    forall i: nat | i < |after| ensures ChildrenFit(after, deps', i) {
      if i != open {
        assert ChildrenFit(before, deps, i);
        FitElsewhere(before, deps, deps', open, after, i);
      }
    }
    forall i: nat, d: nat | IsChild(after, i, d) ensures if d == c then i == open else IsChild(before, i, d) {
      RegisteredChildren(renamed, open, c, after, i, d);
      assert ChildrenFit(before, deps, i);
    }
  }

  // ---------------------------------------------------------------------------
  // initDeployment and addDepAndRelationships
  // ---------------------------------------------------------------------------

  class GraphBuilder {
    const catalog: Catalog
    const existing: Existing
    ghost const rank: map<PackageId, nat>
    var nodes: seq<Node>
    var deps: map<NodeName, nat>

    ghost predicate Valid()
      reads this
    {
      Ranked(catalog, rank) && OnePackageEach(existing) && Fits(catalog, existing, nodes, deps) && Tidy(catalog, nodes, deps)
    }

    constructor (catalog: Catalog, existing: Existing, ghost rank: map<PackageId, nat>)
      requires Ranked(catalog, rank) && OnePackageEach(existing)
      ensures Valid() && nodes == [] && deps == map[]
      ensures this.catalog == catalog && this.existing == existing && this.rank == rank
    {
      this.catalog, this.existing, this.rank := catalog, existing, rank;
      nodes, deps := [], map[];
    }

    ghost function RankOf(p: PackageId): nat
      reads this
    {
      if p in rank then rank[p] else 0
    }

    /** getDeploymentWithDeploymentPackage. */
    method FindDependent(p: PackageId) returns (found: bool, node: nat)
      requires Valid()
      ensures found ==> IsDependent(deps, node) && node < |nodes| && nodes[node].pkg == p
      ensures !found ==> NoneOf(nodes, deps, p)
    {
      found, node := false, 0;
      var todo := deps.Keys;
      while todo != {}
        invariant todo <= deps.Keys
        invariant forall i: nat | IsDependent(deps, i) && i < |nodes| && Fresh(i) !in todo :: nodes[i].pkg != p
        decreases todo
      {
        var k :| k in todo;
        assert IsDependent(deps, deps[k]);
        if nodes[deps[k]].pkg == p {
          return true, deps[k];
        }
        todo := todo - {k};
      }
    }

    /** `targets` counts the target clusters of the request, `allAppTargets` says whether it
        names clusters for all applications at once. */
    method InitDeployment(p: PackageId, targets: nat, allAppTargets: bool) returns (r: Outcome)
      requires Valid()
      modifies this`nodes, this`deps
      ensures r == IndexPanic <==> targets == 0 && allAppTargets && PanicsOn(catalog, p)
      ensures r == Failed ==>
              (targets == 0 && !allAppTargets) || p !in catalog || DefectBelow(catalog, existing, p)
      ensures targets == 0 && !allAppTargets ==> r == Failed
      ensures r.Built? ==> targets > 0 || Requires(catalog, p) == {}
      ensures r.Built? ==>
              && Valid() && r.node == |old(nodes)|
              && p in catalog && Finished(catalog, nodes, deps, r.node) && !IsDependent(deps, r.node)
              && nodes[r.node].pkg == p && nodes[r.node].name == Fresh(r.node)
              && Extends(rank, old(nodes), old(deps), nodes, deps, r.node, r.node + 1, rank[p])
      decreases RankOf(p), 2
    {
      if targets == 0 && !allAppTargets {
        return Failed;
      }
      if !LooksUp(catalog, p) {
        if p in catalog {
          UnknownIsDefect(catalog, existing, p);
        }
        return Failed;
      }
      var id := |nodes|;
      AppendFits(catalog, existing, nodes, deps, p);
      AppendIsTidy(catalog, nodes, deps, p);
      assert !IsDependent(deps, id) by {
        assert IsDependent(deps, id) ==> Finished(catalog, nodes, deps, id);
      }
      nodes := nodes + [Node(p, Fresh(id), map[], {})];
      r := AddDependencies(id, p, targets);
    }

    method AddDependencies(id: nat, p: PackageId, targets: nat) returns (r: Outcome)
      requires Valid() && LooksUp(catalog, p)
      requires id < |nodes| && !IsDependent(deps, id) && nodes[id] == Node(p, Fresh(id), map[], {})
      modifies this`nodes, this`deps
      ensures r == IndexPanic <==> targets == 0 && PanicsOn(catalog, p)
      ensures r == Failed ==> DefectBelow(catalog, existing, p)
      ensures r.Built? ==> targets > 0 || Requires(catalog, p) == {}
      ensures r.Built? ==>
              && Valid() && r.node == id
              && Finished(catalog, nodes, deps, id) && !IsDependent(deps, id)
              && nodes[id].pkg == p && nodes[id].name == Fresh(id)
              && Extends(rank, old(nodes), old(deps), nodes, deps, id, |old(nodes)|, rank[p])
      decreases RankOf(p), 1
    {
      ghost var nodes0, deps0 := nodes, deps;
      var apps := catalog[p].apps;
      ghost var done: multiset<PackageId> := multiset{};
      assert apps[0..] == apps;
      NothingJoined(catalog, nodes0, deps0, id);
      for a := 0 to |apps|
        invariant Reached(id, p, done, nodes0, deps0)
        invariant done == Needed(apps, a)
        invariant targets == 0 ==> FirstOf(apps) == FirstOf(apps[a..])
      {
        AllRequired(catalog, p, a);
        FirstFrom(apps, a);
        r := AddApplication(id, p, apps[a], targets, done, nodes0, deps0);
        if !r.Built? {
          return;
        }
        done := With(done, apps[a], |apps[a]|);
      }
      NothingRequiredIff(apps);
      AllNoted(catalog, p, nodes[id].required);
      return Built(id);
    }

    /** The packages that one application requires, one after the other. */
    method AddApplication(id: nat, p: PackageId, required: seq<PackageId>, targets: nat, ghost before: multiset<PackageId>,
                          ghost nodes0: seq<Node>, ghost deps0: map<NodeName, nat>) returns (r: Outcome)
      requires p in catalog && id < |nodes0| && forall b | 0 <= b < |required| :: required[b] in Requires(catalog, p)
      requires Reached(id, p, before, nodes0, deps0)
      modifies this`nodes, this`deps
      ensures r == IndexPanic <==> targets == 0 && required != [] && NeedsTargets(catalog, required[0])
      ensures targets == 0 ==> (r.Built? <==> required == [])
      ensures r == Failed ==> DefectBelow(catalog, existing, p)
      ensures r.Built? ==> Reached(id, p, With(before, required, |required|), nodes0, deps0)
      decreases RankOf(p), 0, 4
    {
      ghost var done := before;
      for b := 0 to |required|
        invariant Reached(id, p, done, nodes0, deps0)
        invariant done == With(before, required, b)
        invariant targets == 0 ==> b == 0
      {
        r := AddNext(id, p, required[b], targets, done, nodes0, deps0);
        if !r.Built? {
          return;
        }
        done := done + multiset{required[b]};
      }
      return Built(id);
    }

    /** AddDependency, as one more step of the way from `nodes0` and `deps0`. */
    method AddNext(id: nat, p: PackageId, q: PackageId, targets: nat, ghost done: multiset<PackageId>,
                   ghost nodes0: seq<Node>, ghost deps0: map<NodeName, nat>) returns (r: Outcome)
      requires Reached(id, p, done, nodes0, deps0) && p in catalog && q in Requires(catalog, p) && id < |nodes0|
      modifies this`nodes, this`deps
      ensures r == IndexPanic <==> targets == 0 && NeedsTargets(catalog, q)
      ensures r.Built? ==> targets > 0
      ensures r == Failed ==> DefectBelow(catalog, existing, p)
      ensures r.Built? ==> Reached(id, p, done + multiset{q}, nodes0, deps0)
      decreases RankOf(p), 0, 3
    {
      ghost var nodes1, deps1 := nodes, deps;
      r := AddDependency(id, p, q, targets, done);
      if r.Built? {
        ghost var nodes2, deps2 := nodes, deps;
        ExtendsCompose(rank, nodes0, deps0, nodes1, deps1, nodes2, deps2, id, rank[p]);
      }
    }

    /** Enters the freshly built node `c` for package `q` into `deps`, gives it the name of
        the stored Deployment if there is exactly one, and registers it as a child. */
    method Adopt(id: nat, p: PackageId, q: PackageId, c: nat, ghost done: multiset<PackageId>) returns (r: Outcome)
      requires Valid() && Open(id, p, done, done + multiset{q}) && q in catalog && id != c
      requires Finished(catalog, nodes, deps, c) && !IsDependent(deps, c)
      requires nodes[c].pkg == q && nodes[c].name == Fresh(c)
      requires catalog[q].forbids ==> NoneOf(nodes, deps, q)
      requires |catalog[q].apps| > 0
      modifies this`nodes, this`deps
      ensures r in {Built(c), Failed}
      ensures r == Failed ==> Defective(catalog, existing, q)
      ensures r.Built? ==>
              && Valid() && Open(id, p, done + multiset{q}, done + multiset{q})
              && |nodes| == |old(nodes)| && deps == old(deps)[Fresh(c) := c]
              && nodes[c].pkg == q && forall i: nat | i < |nodes| && i != id && i != c :: nodes[i] == old(nodes)[i]
    {
      deps := deps[Fresh(c) := c];
      ghost var before, deps0 := nodes, old(deps);
      var ok := TakeName(c, q);
      if !ok {
        return Failed;
      }
      ghost var renamed := nodes;
      nodes := nodes[id := nodes[id].(children := nodes[id].children[nodes[c].name := c])];
      AdoptionFits(catalog, existing, before, renamed, nodes, deps0, deps, id, c, done);
      AdoptionIsTidy(catalog, existing, before, renamed, nodes, deps0, deps, id, c);
      return Built(c);
    }

    /** A package that forbids multiple deployments takes the name of its stored Deployment. */
    method TakeName(c: nat, q: PackageId) returns (ok: bool)
      requires c < |nodes| && nodes[c].pkg == q && nodes[c].name == Fresh(c) && q in catalog && |catalog[q].apps| > 0
      modifies this`nodes
      ensures if ok then Renamed(catalog, existing, old(nodes), nodes, c) else Defective(catalog, existing, q)
    {
      if catalog[q].forbids {
        var stored := StoredNames(existing, q);
        if |stored| == 1 {
          nodes := nodes[c := nodes[c].(name := Stored(stored[0]))];
        } else if |stored| > 1 {
          return false;
        }
      }
      return true;
    }

    /** Node `id` is under construction: its children stand for the packages `done`, and
        `noted` are the requirements written down so far. */
    ghost predicate Open(id: nat, p: PackageId, done: multiset<PackageId>, noted: multiset<PackageId>)
      reads this
    {
      && Joined(catalog, nodes, deps, id, done) && !IsDependent(deps, id)
      && (forall q :: q in nodes[id].required <==> q in noted) && nodes[id].pkg == p && nodes[id].name == Fresh(id)
    }

    /** What a call that started at `nodes0` and `deps0` has reached for node `id`. */
    ghost predicate Reached(id: nat, p: PackageId, done: multiset<PackageId>, nodes0: seq<Node>, deps0: map<NodeName, nat>)
      reads this
    {
      Valid() && Open(id, p, done, done) && p in rank && Extends(rank, nodes0, deps0, nodes, deps, id, |nodes0|, rank[p])
    }

    /** Notes the requirement itself; relations that hold before hold afterwards. */
    method Require(id: nat, p: PackageId, q: PackageId, ghost done: multiset<PackageId>)
      requires Valid() && Open(id, p, done, done)
      modifies this`nodes
      ensures Valid() && Open(id, p, done, done + multiset{q})
      ensures |nodes| == |old(nodes)| && nodes == old(nodes)[id := nodes[id]]
    {
      assert NameFits(catalog, existing, nodes, id);
      nodes := nodes[id := nodes[id].(required := nodes[id].required + {q})];
      OpenNodeIsFree(catalog, existing, old(nodes), nodes, deps, id);
      JoinedKeeps(catalog, old(nodes), nodes, deps, id, done);
      NotingIsTidy(catalog, old(nodes), nodes, deps);
    }

    /** The node that stands for `q` already becomes a child here too. */
    method Share(id: nat, p: PackageId, q: PackageId, node: nat, ghost done: multiset<PackageId>)
      requires Valid() && Open(id, p, done, done + multiset{q}) && p in catalog && Forbids(catalog, q)
      requires IsDependent(deps, node) && node < |nodes| && nodes[node].pkg == q
      modifies this`nodes
      ensures Reached(id, p, done + multiset{q}, old(nodes), deps)
    {
      ghost var nodes0 := nodes;
      nodes := nodes[id := nodes[id].(children := nodes[id].children[nodes[node].name := node])];
      ghost var nodes1 := nodes;
      JoinChild(catalog, existing, nodes0, deps, id, node, done, nodes1);
      SharingIsTidy(catalog, nodes0, deps, id, node, nodes1);
      RegisteredExtends(rank, nodes0, nodes1, deps, id, node, rank[p]);
    }

    /** A new node for `q`, with everything below it. */
    method Create(id: nat, p: PackageId, q: PackageId, depTargets: nat, ghost done: multiset<PackageId>) returns (r: Outcome)
      requires Valid() && Open(id, p, done, done + multiset{q})
      requires p in catalog && q in Requires(catalog, p) && q in catalog && depTargets == |catalog[q].apps|
      requires catalog[q].forbids ==> NoneOf(nodes, deps, q)
      modifies this`nodes, this`deps
      ensures r != IndexPanic && (depTargets == 0 ==> r == Failed)
      ensures r == Failed ==> DefectBelow(catalog, existing, p)
      ensures r.Built? ==>
              Reached(id, p, done + multiset{q}, old(nodes), old(deps))
      decreases RankOf(p), 0, 0
    {
      ghost var nodes0, deps0 := nodes, deps;
      r := InitDeployment(q, depTargets, false);
      if !r.Built? {
        DefectAbove(catalog, existing, p, q);
        return;
      }
      ghost var nodes1, deps1 := nodes, deps;
      BelowIsSeparate(catalog, rank, nodes0, deps0, nodes1, deps1, id, q, done);
      r := Adopt(id, p, q, r.node, done);
      if r == Failed {
        DefectAbove(catalog, existing, p, q);
      } else {
        AdoptedExtends(rank, nodes0, deps0, nodes1, deps1, nodes, deps, id, rank[q], rank[p]);
      }
    }

    /** A child for the required package `q`: the node that stands for it, or a new one. */
    method Attach(id: nat, p: PackageId, q: PackageId, targets: nat, ghost done: multiset<PackageId>) returns (r: Outcome)
      requires Valid() && Open(id, p, done, done + multiset{q})
      requires p in catalog && q in Requires(catalog, p) && LooksUp(catalog, q)
      modifies this`nodes, this`deps
      ensures r == IndexPanic <==> targets == 0 && NeedsTargets(catalog, q)
      ensures r.Built? ==> targets > 0
      ensures r == Failed ==> DefectBelow(catalog, existing, p)
      ensures r.Built? ==>
              Reached(id, p, done + multiset{q}, old(nodes), old(deps))
      decreases RankOf(p), 0, 1
    {
      var depTargets := |catalog[q].apps|;
      if depTargets > 0 && targets == 0 {
        return IndexPanic;
      }
      var found, node := FindDependent(q);
      if found && catalog[q].forbids {
        Share(id, p, q, node, done);
        return Built(node);
      }
      r := Create(id, p, q, depTargets, done);
    }

    /** One required package `q` of the node under construction. */
    method AddDependency(id: nat, p: PackageId, q: PackageId, targets: nat, ghost done: multiset<PackageId>) returns (r: Outcome)
      requires Valid() && Open(id, p, done, done) && p in catalog && q in Requires(catalog, p)
      modifies this`nodes, this`deps
      ensures r == IndexPanic <==> targets == 0 && NeedsTargets(catalog, q)
      ensures r.Built? ==> targets > 0
      ensures r == Failed ==> DefectBelow(catalog, existing, p)
      ensures r.Built? ==>
              Reached(id, p, done + multiset{q}, old(nodes), old(deps))
      decreases RankOf(p), 0, 2
    {
      if !LooksUp(catalog, q) {
        if q in catalog {
          UnknownIsDefect(catalog, existing, q);
        }
        DefectAbove(catalog, existing, p, q);
        return Failed;
      }
      ghost var nodes0, deps0 := nodes, deps;
      Require(id, p, q, done);
      ghost var nodes1 := nodes;
      OpenChangeExtends(rank, nodes0, nodes1, deps0, id, rank[p]);
      r := Attach(id, p, q, targets, done);
      if r.Built? {
        ghost var nodes2, deps2 := nodes, deps;
        ExtendsCompose(rank, nodes0, deps0, nodes1, deps0, nodes2, deps2, id, rank[p]);
      }
    }
  }

  lemma NothingJoined(catalog: Catalog, nodes: seq<Node>, deps: map<NodeName, nat>, id: nat)
    requires id < |nodes| && nodes[id].children == map[]
    ensures Joined(catalog, nodes, deps, id, multiset{})
  {
  }

  lemma AllRequired(catalog: Catalog, p: PackageId, a: nat)
    requires p in catalog && a < |catalog[p].apps|
    ensures forall b | 0 <= b < |catalog[p].apps[a]| :: catalog[p].apps[a][b] in Requires(catalog, p)
  {
  }

  lemma AllNoted(catalog: Catalog, p: PackageId, noted: set<PackageId>)
    requires p in catalog && forall q :: q in noted <==> q in NeededBy(catalog, p)
    ensures noted == Requires(catalog, p)
  {
    forall q ensures q in noted <==> q in Requires(catalog, p) {
      NeededIsRequired(catalog[p].apps, q);
    }
  }

  // ---------------------------------------------------------------------------
  // The graph of one create request
  // ---------------------------------------------------------------------------

  /** What CreateDeployment holds when the recursion has succeeded: node 0 is the root. */
  ghost predicate IsGraph(catalog: Catalog, existing: Existing, rank: map<PackageId, nat>,
                          nodes: seq<Node>, deps: map<NodeName, nat>, p: PackageId) {
    && Ranked(catalog, rank) && Fits(catalog, existing, nodes, deps) && Tidy(catalog, nodes, deps)
    && Finished(catalog, nodes, deps, 0) && nodes[0].pkg == p && !IsDependent(deps, 0)
    && forall i: nat | 1 <= i < |nodes| ::
         IsDependent(deps, i) && nodes[i].pkg in rank && rank[nodes[i].pkg] < rank[p]
  }

  /** Over an acyclic requirement relation the recursion ends.  It indexes an empty list of
      target clusters exactly if the request names its clusters for all applications at once
      and the first required package has applications; otherwise it succeeds exactly if the
      request has target clusters or nothing to hand them on to, and no package required
      somewhere below is defective. */
  method BuildGraph(catalog: Catalog, existing: Existing, ghost rank: map<PackageId, nat>,
                    p: PackageId, targets: nat, allAppTargets: bool)
    returns (r: Outcome, nodes: seq<Node>, deps: map<NodeName, nat>)
    requires Ranked(catalog, rank) && OnePackageEach(existing)
    ensures r == IndexPanic <==>
            && targets == 0 && allAppTargets
            && p in catalog && Requires(catalog, p) <= catalog.Keys
            && exists a :: 0 <= a < |catalog[p].apps| && IsFirst(catalog[p].apps, a) &&
                 var q := catalog[p].apps[a][0]; Requires(catalog, q) <= catalog.Keys && catalog[q].apps != []
    ensures r.Built? ==> r.node == 0 && IsGraph(catalog, existing, rank, nodes, deps, p)
    ensures r.Built? <==>
            && (targets > 0 || (allAppTargets && Requires(catalog, p) == {}))
            && p in catalog
            && forall q | RequiredBelow(catalog, p, q) ::
                 q in catalog && catalog[q].apps != [] && (catalog[q].forbids ==> |StoredNames(existing, q)| <= 1)
  {
    var builder := new GraphBuilder(catalog, existing, rank);
    r := builder.InitDeployment(p, targets, allAppTargets);
    nodes, deps := builder.nodes, builder.deps;
    if r.Built? {
      GraphHasNoDefect(catalog, existing, rank, nodes, deps, p);
    }
    assert DefectBelow(catalog, existing, p) <==> exists q :: RequiredBelow(catalog, p, q) && Defective(catalog, existing, q);
    if p in catalog {
      NothingRequiredIff(catalog[p].apps);
      FirstIs(catalog[p].apps, 0);
    }
  }

  /** The first requirement is that of application number `a`. */
  predicate IsFirst(apps: seq<seq<PackageId>>, a: nat)
    requires a < |apps|
  {
    apps[a] != [] && forall b | 0 <= b < a :: apps[b] == []
  }

  lemma {:induction false} FirstIs(apps: seq<seq<PackageId>>, n: nat)
    requires n <= |apps| && forall b | 0 <= b < n :: apps[b] == []
    ensures FirstOf(apps[n..]) == Deployments.None <==> forall a | 0 <= a < |apps| :: !IsFirst(apps, a)
    ensures forall a | 0 <= a < |apps| && IsFirst(apps, a) :: FirstOf(apps[n..]) == Deployments.Some(apps[a][0])
    ensures apps[0..] == apps
    decreases |apps| - n
  {
    if n < |apps| {
      FirstFrom(apps, n);
      if apps[n] == [] {
        FirstIs(apps, n + 1);
      } else {
        assert IsFirst(apps, n);
      }
    }
  }

  /** Required by `p`, by what it requires, and so on. */
  ghost predicate RequiredBelow(catalog: Catalog, p: PackageId, q: PackageId) {
    exists r :: r in Requires(catalog, p) && RequiresTransitively(catalog, r, q)
  }

  lemma NodesAreFinished(catalog: Catalog, existing: Existing, rank: map<PackageId, nat>,
                         nodes: seq<Node>, deps: map<NodeName, nat>, p: PackageId, i: nat)
    requires IsGraph(catalog, existing, rank, nodes, deps, p) && i < |nodes|
    ensures Finished(catalog, nodes, deps, i)
    ensures i != 0 ==> IsDependent(deps, i) && Admissible(catalog, existing, nodes, i) && HasParent(nodes, i)
  {
    if i != 0 {
      assert IsDependent(deps, i);
    }
  }

  lemma GraphHasNoDefect(catalog: Catalog, existing: Existing, rank: map<PackageId, nat>,
                         nodes: seq<Node>, deps: map<NodeName, nat>, p: PackageId)
    requires IsGraph(catalog, existing, rank, nodes, deps, p)
    ensures !DefectBelow(catalog, existing, p)
  {
    forall q, bad | q in Requires(catalog, p) && RequiresTransitively(catalog, q, bad)
      ensures !Defective(catalog, existing, bad)
    {
      NoDefectAt(catalog, existing, rank, nodes, deps, p, q, bad);
    }
  }

  lemma NoDefectAt(catalog: Catalog, existing: Existing, rank: map<PackageId, nat>,
                   nodes: seq<Node>, deps: map<NodeName, nat>, p: PackageId, q: PackageId, bad: PackageId)
    requires IsGraph(catalog, existing, rank, nodes, deps, p)
    requires q in Requires(catalog, p) && RequiresTransitively(catalog, q, bad)
    ensures !Defective(catalog, existing, bad)
  {
    var path :| IsRequirementPath(catalog, path, q, bad);
    PathGrows(catalog, path, p, q, bad);
    var i := NodeFor(catalog, existing, rank, nodes, deps, p, [p] + path, bad);
    NodesAreFinished(catalog, existing, rank, nodes, deps, p, i);
  }

  lemma PathPrefix(catalog: Catalog, path: seq<PackageId>, p: PackageId, q: PackageId)
    requires IsRequirementPath(catalog, path, p, q) && |path| > 1
    ensures IsRequirementPath(catalog, path[..|path| - 1], p, path[|path| - 2])
    ensures q in Requires(catalog, path[|path| - 2])
  {
  }

  lemma NodeBelow(catalog: Catalog, existing: Existing, rank: map<PackageId, nat>,
                  nodes: seq<Node>, deps: map<NodeName, nat>, p: PackageId, j: nat, q: PackageId) returns (i: nat)
    requires IsGraph(catalog, existing, rank, nodes, deps, p) && j < |nodes| && q in Requires(catalog, nodes[j].pkg)
    ensures IsChild(nodes, j, i) && IsDependent(deps, i) && nodes[i].pkg == q
  {
    NodesAreFinished(catalog, existing, rank, nodes, deps, p, j);
    i := ChildFor(catalog, nodes, deps, j, q);
  }

  /** Every package on a path of requirements has a node, and one that is required is a value of
      the dependents map. */
  lemma {:induction false} NodeFor(catalog: Catalog, existing: Existing, rank: map<PackageId, nat>,
                                   nodes: seq<Node>, deps: map<NodeName, nat>, p: PackageId, path: seq<PackageId>, q: PackageId)
    returns (i: nat)
    requires IsGraph(catalog, existing, rank, nodes, deps, p) && IsRequirementPath(catalog, path, p, q)
    ensures i < |nodes| && nodes[i].pkg == q
    ensures |path| > 1 ==> IsDependent(deps, i)
    decreases |path|
  {
    if |path| == 1 {
      i := 0;
    } else {
      PathPrefix(catalog, path, p, q);
      var j := NodeFor(catalog, existing, rank, nodes, deps, p, path[..|path| - 1], path[|path| - 2]);
      i := NodeBelow(catalog, existing, rank, nodes, deps, p, j, q);
    }
  }

  lemma ChildFor(catalog: Catalog, nodes: seq<Node>, deps: map<NodeName, nat>, j: nat, q: PackageId) returns (i: nat)
    requires Finished(catalog, nodes, deps, j) && q in Requires(catalog, nodes[j].pkg)
    ensures IsChild(nodes, j, i) && IsDependent(deps, i) && nodes[i].pkg == q
  {
    NeededIsRequired(catalog[nodes[j].pkg].apps, q);
    ChildrenForWanted(catalog, nodes, deps, j, NeededBy(catalog, nodes[j].pkg), q);
    var k :| k in ChildrenOf(nodes, j, q);
    i := nodes[j].children[k];
  }

  lemma {:induction false} NodeIsRequired(catalog: Catalog, existing: Existing, rank: map<PackageId, nat>,
                                          nodes: seq<Node>, deps: map<NodeName, nat>, p: PackageId, i: nat)
    requires IsGraph(catalog, existing, rank, nodes, deps, p) && i < |nodes|
    ensures RequiresTransitively(catalog, p, nodes[i].pkg)
    decreases rank[p] - rank[nodes[i].pkg]
  {
    if i == 0 {
      assert IsRequirementPath(catalog, [p], p, p);
    } else {
      NodesAreFinished(catalog, existing, rank, nodes, deps, p, i);
      var parent: nat :| IsChild(nodes, parent, i);
      ChildIsRequired(catalog, existing, rank, nodes, deps, p, parent, i);
      NodeIsRequired(catalog, existing, rank, nodes, deps, p, parent);
      var path :| IsRequirementPath(catalog, path, p, nodes[parent].pkg);
      PathGrows(catalog, path, p, nodes[parent].pkg, nodes[i].pkg);
    }
  }

  lemma ChildIsRequired(catalog: Catalog, existing: Existing, rank: map<PackageId, nat>,
                        nodes: seq<Node>, deps: map<NodeName, nat>, p: PackageId, parent: nat, i: nat)
    requires IsGraph(catalog, existing, rank, nodes, deps, p) && IsChild(nodes, parent, i)
    ensures nodes[i].pkg in Requires(catalog, nodes[parent].pkg)
    ensures nodes[i].pkg in rank && nodes[parent].pkg in rank && rank[nodes[i].pkg] < rank[nodes[parent].pkg]
  {
    NodesAreFinished(catalog, existing, rank, nodes, deps, p, parent);
    NodesAreFinished(catalog, existing, rank, nodes, deps, p, i);
    var q := nodes[i].pkg;
    assert nodes[i].name in ChildrenOf(nodes, parent, q);
    ChildrenForWanted(catalog, nodes, deps, parent, NeededBy(catalog, nodes[parent].pkg), q);
    NeededIsRequired(catalog[nodes[parent].pkg].apps, q);
  }

  /** Collapsed by package, the graph that was built is the requirement relation below the
      requested package, no edge more and no edge less. */
  lemma CollapsedGraphIsTheRequirements(catalog: Catalog, existing: Existing, rank: map<PackageId, nat>,
                                        nodes: seq<Node>, deps: map<NodeName, nat>, root: PackageId, p: PackageId, q: PackageId)
    requires IsGraph(catalog, existing, rank, nodes, deps, root)
    ensures HasEdge(nodes, p, q) <==> RequiresTransitively(catalog, root, p) && q in Requires(catalog, p)
  {
    if HasEdge(nodes, p, q) {
      var i: nat, j: nat :| IsChild(nodes, i, j) && nodes[i].pkg == p && nodes[j].pkg == q;
      NodeIsRequired(catalog, existing, rank, nodes, deps, root, i);
      ChildIsRequired(catalog, existing, rank, nodes, deps, root, i, j);
    }
    if RequiresTransitively(catalog, root, p) && q in Requires(catalog, p) {
      RequirementHasEdge(catalog, existing, rank, nodes, deps, root, p, q);
    }
  }

  ghost predicate HasEdge(nodes: seq<Node>, p: PackageId, q: PackageId) {
    exists i: nat, j: nat :: IsChild(nodes, i, j) && nodes[i].pkg == p && nodes[j].pkg == q
  }

  lemma RequirementHasEdge(catalog: Catalog, existing: Existing, rank: map<PackageId, nat>,
                           nodes: seq<Node>, deps: map<NodeName, nat>, root: PackageId, p: PackageId, q: PackageId)
    requires IsGraph(catalog, existing, rank, nodes, deps, root)
    requires RequiresTransitively(catalog, root, p) && q in Requires(catalog, p)
    ensures HasEdge(nodes, p, q)
  {
    var path :| IsRequirementPath(catalog, path, root, p);
    var i := NodeFor(catalog, existing, rank, nodes, deps, root, path, p);
    var j := NodeBelow(catalog, existing, rank, nodes, deps, root, i, q);
  }

  /** A package that forbids multiple deployments has at most one node in the whole graph. */
  lemma ForbiddingPackagesAreShared(catalog: Catalog, existing: Existing, rank: map<PackageId, nat>,
                                    nodes: seq<Node>, deps: map<NodeName, nat>, root: PackageId, i: nat, j: nat)
    requires IsGraph(catalog, existing, rank, nodes, deps, root)
    requires i < |nodes| && j < |nodes| && nodes[i].pkg == nodes[j].pkg && Forbids(catalog, nodes[i].pkg)
    ensures i == j
  {
    assert IsDependent(deps, i) || i == 0;
    assert IsDependent(deps, j) || j == 0;
  }

  /** The name of the one stored Deployment is taken over exactly for a forbidding package that
      has one; every other dependent gets a name of its own. */
  lemma NamesAreTakenOver(catalog: Catalog, existing: Existing, rank: map<PackageId, nat>,
                          nodes: seq<Node>, deps: map<NodeName, nat>, root: PackageId, i: nat)
    requires IsGraph(catalog, existing, rank, nodes, deps, root) && 0 < i < |nodes|
    ensures var p := nodes[i].pkg;
            if Forbids(catalog, p) && p in existing && existing[p] != [] then
              nodes[i].name.Stored? && existing[p] == [nodes[i].name.name]
            else nodes[i].name == Fresh(i)
  {
    NodesAreFinished(catalog, existing, rank, nodes, deps, root, i);
  }

  /** A node of a package that allows multiple deployments has exactly one parent, and is used
      for nothing else. */
  lemma OtherNodesHaveOneParent(catalog: Catalog, existing: Existing, rank: map<PackageId, nat>,
                                nodes: seq<Node>, deps: map<NodeName, nat>, root: PackageId, c: nat)
    requires IsGraph(catalog, existing, rank, nodes, deps, root)
    requires 0 < c < |nodes| && !Forbids(catalog, nodes[c].pkg)
    ensures exists i: nat :: IsChild(nodes, i, c)
    ensures forall i: nat, j: nat | IsChild(nodes, i, c) && IsChild(nodes, j, c) :: i == j
  {
    NodesAreFinished(catalog, existing, rank, nodes, deps, root, c);
  }

  /** Each requirement of a package that allows multiple deployments has a child of its own; all
      requirements of a package that forbids them, in one Deployment, have one together. */
  lemma EveryRequirementHasItsChild(catalog: Catalog, existing: Existing, rank: map<PackageId, nat>,
                                    nodes: seq<Node>, deps: map<NodeName, nat>, root: PackageId, i: nat, q: PackageId)
    requires IsGraph(catalog, existing, rank, nodes, deps, root) && i < |nodes|
    ensures nodes[i].pkg in catalog && forall k | k in nodes[i].children :: nodes[i].children[k] < |nodes|
    ensures forall k, l | k in nodes[i].children && l in nodes[i].children && k != l ::
              nodes[i].children[k] != nodes[i].children[l]
    ensures var apps := catalog[nodes[i].pkg].apps;
            var n := |Places(apps, |apps|, q)|;
            |ChildrenOf(nodes, i, q)| == if Forbids(catalog, q) && n > 0 then 1 else n
  {
    NodesAreFinished(catalog, existing, rank, nodes, deps, root, i);
    NeededCounts(catalog[nodes[i].pkg].apps, |catalog[nodes[i].pkg].apps|, q);
  }
}
