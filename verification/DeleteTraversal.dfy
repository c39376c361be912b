/** Deleting a Deployment together with everything below it: the bounded traversal that
    collects the targets, the check of the back links, and the deletion itself. */
module DeleteTraversal {
  import opened Deployments

  const MAX_DEPTH: nat := 20

  // ---------------------------------------------------------------------------
  // Walks along child edges
  // ---------------------------------------------------------------------------

  ghost predicate IsWalk(store: Store, walk: seq<Name>) {
    && walk != []
    && forall i, j | 0 <= i && j == i + 1 < |walk| :: walk[j] in Children(store, walk[i])
  }

  ghost predicate IsWalkFromTo(store: Store, walk: seq<Name>, root: Name, end: Name) {
    IsWalk(store, walk) && walk[0] == root && walk[|walk| - 1] == end
  }

  ghost predicate Reachable(store: Store, root: Name, name: Name) {
    exists walk :: IsWalkFromTo(store, walk, root, name)
  }

  /** Some walk of exactly `edges` child edges leaves `root`. */
  ghost predicate LongWalk(store: Store, root: Name, edges: nat)
    decreases edges, 0
  {
    edges > 0 ==> LongWalkFromAny(store, Children(store, root), edges - 1)
  }

  ghost predicate LongWalkFromAny(store: Store, roots: set<Name>, edges: nat)
    decreases edges, 1
  {
    exists r :: r in roots && LongWalk(store, r, edges)
  }

  /** The names on walks of fewer than `fuel` edges from `root`. */
  ghost function Within(store: Store, root: Name, fuel: nat): set<Name>
    decreases fuel, 0
  {
    if fuel == 0 then {} else {root} + WithinAny(store, Children(store, root), fuel - 1)
  }

  ghost function WithinAny(store: Store, roots: set<Name>, fuel: nat): set<Name>
    decreases fuel, 1
  {
    set r, n | r in roots && n in Within(store, r, fuel) :: n
  }

  lemma FromAnyGrows(store: Store, roots: set<Name>, root: Name, fuel: nat)
    ensures LongWalkFromAny(store, roots + {root}, fuel) <==>
            LongWalkFromAny(store, roots, fuel) || LongWalk(store, root, fuel)
    ensures WithinAny(store, roots + {root}, fuel) == WithinAny(store, roots, fuel) + Within(store, root, fuel)
  {
  }

  lemma {:induction false} LongWalkIsWalk(store: Store, root: Name, edges: nat)
    ensures LongWalk(store, root, edges) <==>
            exists walk :: IsWalk(store, walk) && walk[0] == root && |walk| == edges + 1
    decreases edges
  {
    if edges == 0 {
      assert IsWalk(store, [root]);
    } else {
      if LongWalk(store, root, edges) {
        assert LongWalkFromAny(store, Children(store, root), edges - 1);
        var c :| c in Children(store, root) && LongWalk(store, c, edges - 1);
        LongWalkIsWalk(store, c, edges - 1);
        var tail :| IsWalk(store, tail) && tail[0] == c && |tail| == edges;
        assert IsWalk(store, [root] + tail);
      }
      forall walk | IsWalk(store, walk) && walk[0] == root && |walk| == edges + 1
        ensures LongWalk(store, root, edges)
      {
        assert walk[1] in Children(store, walk[0]);
        assert IsWalk(store, walk[1..]);
        LongWalkIsWalk(store, walk[1], edges - 1);
        assert LongWalkFromAny(store, Children(store, root), edges - 1);
      }
    }
  }

  lemma {:induction false} WithinIsWalk(store: Store, root: Name, fuel: nat, name: Name)
    ensures name in Within(store, root, fuel) <==>
            exists walk :: IsWalkFromTo(store, walk, root, name) && |walk| <= fuel
    decreases fuel
  {
    if fuel == 0 {
    } else {
      if name in Within(store, root, fuel) {
        if name == root {
          assert IsWalkFromTo(store, [root], root, name);
        } else {
          assert name in WithinAny(store, Children(store, root), fuel - 1);
          var c :| c in Children(store, root) && name in Within(store, c, fuel - 1);
          WithinIsWalk(store, c, fuel - 1, name);
          var tail :| IsWalkFromTo(store, tail, c, name) && |tail| <= fuel - 1;
          assert IsWalkFromTo(store, [root] + tail, root, name);
        }
      }
      forall walk | IsWalkFromTo(store, walk, root, name) && |walk| <= fuel
        ensures name in Within(store, root, fuel)
      {
        if |walk| > 1 {
          assert walk[1] in Children(store, walk[0]);
          assert IsWalkFromTo(store, walk[1..], walk[1], name);
          WithinIsWalk(store, walk[1], fuel - 1, name);
          assert walk[1] in Children(store, root) && name in Within(store, walk[1], fuel - 1);
          assert name in WithinAny(store, Children(store, root), fuel - 1);
        }
      }
    }
  }

  lemma {:induction false} LongWalkShrinks(store: Store, root: Name, edges: nat, fewer: nat)
    requires LongWalk(store, root, edges) && fewer <= edges
    ensures LongWalk(store, root, fewer)
    decreases fewer
  {
    if fewer == 0 {
    } else {
      assert LongWalkFromAny(store, Children(store, root), edges - 1);
      var c :| c in Children(store, root) && LongWalk(store, c, edges - 1);
      LongWalkShrinks(store, c, edges - 1, fewer - 1);
      assert LongWalkFromAny(store, Children(store, root), fewer - 1);
    }
  }

  /** Without a walk of `fuel` edges, the names within `fuel` are all the reachable ones. */
  lemma WithinIsReachable(store: Store, root: Name, fuel: nat, name: Name)
    requires !LongWalk(store, root, fuel)
    ensures name in Within(store, root, fuel) <==> Reachable(store, root, name)
  {
    WithinIsWalk(store, root, fuel, name);
    if walk :| IsWalkFromTo(store, walk, root, name) {
      if |walk| > fuel {
        LongWalkIsWalk(store, root, |walk| - 1);
        LongWalkShrinks(store, root, |walk| - 1, fuel);
      }
    }
  }

  lemma WalksCompose(store: Store, a: seq<Name>, b: seq<Name>)
    requires IsWalk(store, a) && IsWalk(store, b) && a[|a| - 1] == b[0]
    ensures IsWalkFromTo(store, a + b[1..], a[0], b[|b| - 1])
  {
    var walk := a + b[1..];
    forall i, j | 0 <= i && j == i + 1 < |walk|
      ensures walk[j] in Children(store, walk[i])
    {
      if j < |a| {
        assert walk[i] == a[i] && walk[j] == a[j];
      } else {
        assert walk[i] == b[i - (|a| - 1)] && walk[j] == b[j - (|a| - 1)];
      }
    }
  }

  lemma {:induction false} CycleGivesLongWalks(store: Store, start: seq<Name>, cycle: seq<Name>, edges: nat)
    requires IsWalk(store, start) && IsWalk(store, cycle)
    requires |cycle| > 1 && cycle[0] == cycle[|cycle| - 1] == start[|start| - 1]
    ensures LongWalk(store, start[0], edges)
    decreases edges - |start|
  {
    if |start| > edges {
      LongWalkIsWalk(store, start[0], |start| - 1);
      LongWalkShrinks(store, start[0], |start| - 1, edges);
    } else {
      WalksCompose(store, start, cycle);
      CycleGivesLongWalks(store, start + cycle[1..], cycle, edges);
    }
  }

  /** When the traversal accepts `root`, nothing reachable from it lies on a cycle. */
  lemma AcceptedIsAcyclic(store: Store, root: Name, start: seq<Name>, cycle: seq<Name>)
    requires !LongWalk(store, root, MAX_DEPTH + 1)
    requires IsWalk(store, start) && start[0] == root
    requires IsWalk(store, cycle) && cycle[0] == start[|start| - 1]
    ensures cycle[|cycle| - 1] == cycle[0] ==> |cycle| == 1
  {
    if |cycle| > 1 && cycle[|cycle| - 1] == cycle[0] {
      CycleGivesLongWalks(store, start, cycle, MAX_DEPTH + 1);
    }
  }

  // ---------------------------------------------------------------------------
  // getTargetDeploymentsForDeleteDeployment
  // ---------------------------------------------------------------------------

  /** The list that the traversal fills while it recurses; a name without a Deployment is
      entered too, with nothing behind it. */
  class TargetList {
    var found: map<Name, Option<Deployment>>

    constructor ()
      ensures found == map[]
    {
      found := map[];
    }
  }

  ghost function Entries(store: Store, names: set<Name>): map<Name, Option<Deployment>> {
    map n | n in names :: Lookup(store, n)
  }

  lemma EntriesCompose(store: Store, base: map<Name, Option<Deployment>>, first: set<Name>, second: set<Name>)
    ensures base + Entries(store, first) + Entries(store, second) == base + Entries(store, first + second)
    ensures base + Entries(store, {}) == base
  {
  }

  /** Edges that are still allowed below a call at `depth`. */
  function Remaining(depth: nat): nat {
    if depth > MAX_DEPTH then 0 else MAX_DEPTH + 1 - depth
  }

  method CollectTargets(root: Name, targets: TargetList, store: Store, depth: nat) returns (ok: bool)
    modifies targets
    ensures ok <==> !LongWalk(store, root, Remaining(depth))
    ensures ok ==> targets.found == old(targets.found) + Entries(store, Within(store, root, Remaining(depth)))
    decreases Remaining(depth), 0
  {
    if depth > MAX_DEPTH {
      return false;
    }
    targets.found := targets.found[root := Lookup(store, root)];
    ghost var below := WithinAny(store, Children(store, root), Remaining(depth + 1));
    assert targets.found == old(targets.found) + Entries(store, {root});
    assert Within(store, root, Remaining(depth)) == {root} + below;
    if root !in store {
      assert below == {};
      return true;
    }
    EntriesCompose(store, old(targets.found), {root}, below);
    ok := CollectChildren(store[root].children.Keys, targets, store, depth);
  }

  /** The loop over the child list. The children are visited in any order; the answer does
      not depend on it. */
  method CollectChildren(children: set<Name>, targets: TargetList, store: Store, depth: nat) returns (ok: bool)
    requires depth <= MAX_DEPTH
    modifies targets
    ensures ok <==> !LongWalkFromAny(store, children, Remaining(depth + 1))
    ensures ok ==> targets.found == old(targets.found) + Entries(store, WithinAny(store, children, Remaining(depth + 1)))
    decreases Remaining(depth + 1), 1
  {
    ghost var base, fuel := targets.found, Remaining(depth + 1);
    var todo := children;
    ghost var done: set<Name>, covered: set<Name> := {}, {};
    EntriesCompose(store, base, {}, {});
    while todo != {}
      invariant done + todo == children
      invariant !LongWalkFromAny(store, done, fuel)
      invariant covered == WithinAny(store, done, fuel)
      invariant targets.found == base + Entries(store, covered)
      decreases todo
    {
      var child :| child in todo;
      var below := CollectTargets(child, targets, store, depth + 1);
      if !below {
        return false;
      }
      FromAnyGrows(store, done, child, fuel);
      EntriesCompose(store, base, covered, Within(store, child, fuel));
      covered := covered + Within(store, child, fuel);
      todo := todo - {child};
      done := done + {child};
    }
    assert done == children;
    return true;
  }

  // ---------------------------------------------------------------------------
  // validateTargetDeployments
  // ---------------------------------------------------------------------------

  datatype Verdict = Accepted | Rejected | NilDereference

  ghost predicate ParentsInside(targets: map<Name, Option<Deployment>>, name: Name)
    requires name in targets && targets[name].Some?
  {
    targets[name].value.parents.Keys <= targets.Keys
  }

  /** A target that was not in the listing is dereferenced all the same. */
  method ValidateTargets(targets: map<Name, Option<Deployment>>) returns (verdict: Verdict)
    ensures verdict == Accepted <==>
            forall n | n in targets :: targets[n].Some? && ParentsInside(targets, n)
    ensures verdict == NilDereference ==> exists n :: n in targets && targets[n].None?
    ensures verdict == Rejected ==>
            exists n :: n in targets && targets[n].Some? && !ParentsInside(targets, n)
  {
    var todo := targets.Keys;
    while todo != {}
      invariant todo <= targets.Keys
      invariant forall n | n in targets && n !in todo :: targets[n].Some? && ParentsInside(targets, n)
      decreases todo
    {
      var n :| n in todo;
      if targets[n].None? {
        return NilDereference;
      }
      var parents := targets[n].value.parents.Keys;
      while parents != {}
        invariant parents <= targets[n].value.parents.Keys
        invariant forall p | p in targets[n].value.parents && p !in parents :: p in targets
        decreases parents
      {
        var p :| p in parents;
        if p !in targets {
          return Rejected;
        }
        parents := parents - {p};
      }
      todo := todo - {n};
    }
    return Accepted;
  }

  // ---------------------------------------------------------------------------
  // DeleteDeployment
  // ---------------------------------------------------------------------------

  datatype DeleteType = ParentOnly | All

  datatype Outcome =
    | Deleted
    | NotFound
    | HasParents
    | DepthExceeded
    | OutsideParent
    | NilPanic
    | ApiError

  ghost predicate Closed(store: Store, targets: set<Name>) {
    forall n | n in targets :: n in store && store[n].parents.Keys <= targets
  }

  ghost function Targets(store: Store, name: Name, kind: DeleteType): set<Name> {
    if kind == ParentOnly then {name} else Within(store, name, MAX_DEPTH + 1)
  }

  /** Exactly when a delete request is carried out, if no call to the API server fails. */
  ghost predicate MayDelete(store: Store, name: Name, kind: DeleteType) {
    && name in store
    && store[name].parents == map[]
    && (kind == All ==>
          && !LongWalk(store, name, MAX_DEPTH + 1)
          && Closed(store, Within(store, name, MAX_DEPTH + 1)))
  }

  /** A target is no longer stored. */
  ghost predicate HasHole(store: Store, targets: set<Name>) {
    exists n :: n in targets && n !in store
  }

  /** A stored target has a parent that is no target. */
  ghost predicate HasOutsideParent(store: Store, targets: set<Name>) {
    exists n :: n in targets && n in store && !(store[n].parents.Keys <= targets)
  }

  lemma ClosedIff(store: Store, targets: set<Name>)
    ensures Closed(store, targets) <==> !HasHole(store, targets) && !HasOutsideParent(store, targets)
  {
  }

  lemma DeleteAllCompose(store: Store, first: set<Name>, second: set<Name>)
    ensures DeleteAll(DeleteAll(store, first), second) == DeleteAll(store, first + second)
    ensures DeleteAll(store, {}) == store
  {
  }

  class DeploymentService {
    var store: Store

    /** One delete call of the API server for each target, in any order, up to the first
        one that fails. */
    method DeleteEach(names: set<Name>, failing: set<Name>) returns (ok: bool)
      modifies this
      ensures ok <==> names !! failing
      ensures ok ==> store == DeleteAll(old(store), names)
      ensures exists done :: done <= names - failing && store == DeleteAll(old(store), done)
    {
      var todo := names;
      ghost var done: set<Name> := {};
      DeleteAllCompose(store, {}, {});
      while todo != {}
        invariant done + todo == names && done !! todo && done !! failing
        invariant store == DeleteAll(old(store), done)
        decreases todo
      {
        var n :| n in todo;
        if n in failing {
          return false;
        }
        DeleteAllCompose(old(store), done, {n});
        store := DeleteAll(store, {n});
        todo := todo - {n};
        done := done + {n};
      }
      return true;
    }

    /** Delete type ALL, for a Deployment without parents. */
    method DeleteGraph(name: Name, failing: set<Name>) returns (outcome: Outcome)
      requires name in store && store[name].parents == map[]
      modifies this
      ensures outcome in {Deleted, ApiError, DepthExceeded, OutsideParent, NilPanic}
      ensures outcome == Deleted <==>
              MayDelete(old(store), name, All) && Targets(old(store), name, All) !! failing
      ensures outcome == Deleted ==> store == DeleteAll(old(store), Targets(old(store), name, All))
      ensures outcome == ApiError ==>
              && MayDelete(old(store), name, All)
              && exists done :: done <= Targets(old(store), name, All) && store == DeleteAll(old(store), done)
      ensures outcome != Deleted && outcome != ApiError ==> store == old(store)
      ensures outcome == DepthExceeded <==> LongWalk(old(store), name, MAX_DEPTH + 1)
      ensures outcome == NilPanic ==> HasHole(old(store), Targets(old(store), name, All))
      ensures outcome == OutsideParent ==> HasOutsideParent(old(store), Targets(old(store), name, All))
    {
      var targets := new TargetList();
      var within := CollectTargets(name, targets, store, 0);
      if !within {
        return DepthExceeded;
      }
      ghost var reached := Within(store, name, MAX_DEPTH + 1);
      assert targets.found == Entries(store, reached);
      var verdict := ValidateTargets(targets.found);
      assert forall n | n in reached :: targets.found[n] == Lookup(store, n);
      assert verdict == Accepted <==> Closed(store, reached);
      ClosedIff(store, reached);
      if verdict == NilDereference {
        return NilPanic;
      }
      if verdict == Rejected {
        return OutsideParent;
      }
      var ok := DeleteEach(targets.found.Keys, failing);
      outcome := if ok then Deleted else ApiError;
    }

    method DeleteDeployment(name: Name, kind: DeleteType, failing: set<Name>) returns (outcome: Outcome)
      modifies this
      ensures outcome == Deleted <==>
              MayDelete(old(store), name, kind) && Targets(old(store), name, kind) !! failing
      ensures outcome == Deleted ==> store == DeleteAll(old(store), Targets(old(store), name, kind))
      ensures outcome == ApiError ==>
              && MayDelete(old(store), name, kind)
              && exists done :: done <= Targets(old(store), name, kind) && store == DeleteAll(old(store), done)
      ensures outcome != Deleted && outcome != ApiError ==> store == old(store)
      ensures outcome == NotFound <==> name !in old(store)
      ensures outcome == HasParents <==> name in old(store) && old(store)[name].parents != map[]
      ensures outcome == DepthExceeded <==>
              && name in old(store) && old(store)[name].parents == map[]
              && kind == All && LongWalk(old(store), name, MAX_DEPTH + 1)
      ensures outcome == NilPanic ==> HasHole(old(store), Targets(old(store), name, All))
      ensures outcome == OutsideParent ==> HasOutsideParent(old(store), Targets(old(store), name, All))
      ensures var targets := Targets(old(store), name, All);
              && name in old(store) && old(store)[name].parents == map[]
              && kind == All && !LongWalk(old(store), name, MAX_DEPTH + 1) ==>
                && (outcome in {NilPanic, OutsideParent} <==> HasHole(old(store), targets) || HasOutsideParent(old(store), targets))
                && (HasHole(old(store), targets) && !HasOutsideParent(old(store), targets) ==> outcome == NilPanic)
                && (HasOutsideParent(old(store), targets) && !HasHole(old(store), targets) ==> outcome == OutsideParent)
    {
      ClosedIff(store, Targets(store, name, All));
      if name !in store {
        return NotFound;
      }
      if |store[name].parents| > 0 {
        return HasParents;
      }
      if kind == ParentOnly {
        var ok := DeleteEach({name}, failing);
        return if ok then Deleted else ApiError;
      }
      outcome := DeleteGraph(name, failing);
    }
  }

  // ---------------------------------------------------------------------------
  // Safety
  // ---------------------------------------------------------------------------

  ghost predicate IsLive(store: Store, name: Name) {
    name in store && !store[name].deleting
  }

  /** Every stored child of a live Deployment names it as a parent; a Deployment that is being
      deleted takes its entries back. */
  ghost predicate RecordsLiveParents(store: Store) {
    forall p, c | IsLive(store, p) && c in store && c in store[p].children :: p in store[c].parents
  }

  /** A walk on which every Deployment that lists the next one is live. */
  ghost predicate IsLiveWalk(store: Store, walk: seq<Name>) {
    IsWalk(store, walk) && forall i | 0 <= i < |walk| - 1 :: IsLive(store, walk[i])
  }

  lemma {:induction false} AncestorsAreTargets(store: Store, targets: set<Name>, walk: seq<Name>)
    requires RecordsLiveParents(store) && Closed(store, targets)
    requires IsLiveWalk(store, walk) && walk[|walk| - 1] in targets
    ensures walk[0] in targets
  {
    if |walk| > 1 {
      var rest := walk[1..];
      assert IsLiveWalk(store, rest);
      AncestorsAreTargets(store, targets, rest);
      assert rest[0] == walk[1] && walk[1] in Children(store, walk[0]) && IsLive(store, walk[0]);
    }
  }

  /** A carried-out request takes exactly the Deployments reachable from the root (or the
      root alone), and what leads to a deleted one over live Deployments is deleted with it. */
  lemma DeleteIsSafe(store: Store, name: Name, kind: DeleteType, survivor: Name, deleted: Name)
    requires MayDelete(store, name, kind) && RecordsLiveParents(store)
    requires deleted in Targets(store, name, kind)
    ensures kind == All ==> Reachable(store, name, deleted)
    ensures kind == All && Reachable(store, name, survivor) ==> survivor in Targets(store, name, kind)
    ensures forall walk | IsLiveWalk(store, walk) && walk[0] == survivor && walk[|walk| - 1] == deleted ::
              survivor in Targets(store, name, kind)
    ensures IsLive(store, survivor) && survivor !in Targets(store, name, kind) ==> deleted !in Children(store, survivor)
  {
    if kind == All {
      WithinIsReachable(store, name, MAX_DEPTH + 1, deleted);
      WithinIsReachable(store, name, MAX_DEPTH + 1, survivor);
    }
    assert Closed(store, Targets(store, name, kind));
    forall walk | IsLiveWalk(store, walk) && walk[0] == survivor && walk[|walk| - 1] == deleted
      ensures survivor in Targets(store, name, kind)
    {
      AncestorsAreTargets(store, Targets(store, name, kind), walk);
    }
  }

  /** In the store that the request leaves, no live Deployment lists a deleted one. */
  lemma NoLiveSurvivorListsADeletedOne(store: Store, name: Name, kind: DeleteType, survivor: Name)
    requires MayDelete(store, name, kind) && RecordsLiveParents(store)
    requires IsLive(DeleteAll(store, Targets(store, name, kind)), survivor)
    ensures Children(DeleteAll(store, Targets(store, name, kind)), survivor) !! Targets(store, name, kind)
  {
    forall deleted | deleted in Targets(store, name, kind) ensures deleted !in Children(store, survivor) {
      DeleteIsSafe(store, name, kind, survivor, deleted);
    }
  }

  /** A child that is no longer stored keeps the request from being accepted: it crashes, or
      fails cleanly if a target with an outside parent is visited before the hole. */
  lemma MissingChildIsNeverAccepted(store: Store, name: Name, missing: Name)
    requires Reachable(store, name, missing) && missing !in store
    ensures !MayDelete(store, name, All)
    ensures !LongWalk(store, name, MAX_DEPTH + 1) ==> HasHole(store, Targets(store, name, All))
  {
    if !LongWalk(store, name, MAX_DEPTH + 1) {
      WithinIsReachable(store, name, MAX_DEPTH + 1, missing);
    }
  }

  lemma EndIsVisitedOnce(store: Store, walk: seq<Name>)
    requires IsWalk(store, walk) && !LongWalk(store, walk[0], MAX_DEPTH + 1)
    ensures forall i | 0 <= i < |walk| - 1 :: walk[i] != walk[|walk| - 1]
  {
    forall i | 0 <= i < |walk| - 1
      ensures walk[i] != walk[|walk| - 1]
    {
      assert IsWalk(store, walk[..i + 1]) && IsWalk(store, walk[i..]);
      AcceptedIsAcyclic(store, walk[0], walk[..i + 1], walk[i..]);
    }
  }

  /** A request that failed half-way can leave the root behind without one of the targets;
      from then on no retry is accepted, because each of them meets the hole. */
  lemma RetryAfterPartialDeleteIsStuck(store: Store, name: Name, lost: Name, later: Store)
    requires MayDelete(store, name, All)
    requires lost in Targets(store, name, All) && lost != name
    requires lost !in later
    requires forall n | n in store && n != lost :: n in later && later[n].children == store[n].children
    ensures !MayDelete(later, name, All)
  {
    WithinIsReachable(store, name, MAX_DEPTH + 1, lost);
    var walk :| IsWalkFromTo(store, walk, name, lost);
    EndIsVisitedOnce(store, walk);
    forall i, j | 0 <= i && j == i + 1 < |walk|
      ensures walk[j] in Children(later, walk[i])
    {
      assert walk[j] in Children(store, walk[i]);
    }
    assert IsWalkFromTo(later, walk, name, lost);
    MissingChildIsNeverAccepted(later, name, lost);
  }

  // ---------------------------------------------------------------------------
  // Which requests are accepted
  // ---------------------------------------------------------------------------

  /** A request for a whole graph is accepted exactly if the root is stored and has no parents,
      no walk goes down 21 levels, and everything below is stored and has its parents below too. */
  lemma GraphMayBeDeletedIff(store: Store, name: Name)
    ensures MayDelete(store, name, All) <==>
              && name in store && store[name].parents == map[]
              && (forall walk | IsWalk(store, walk) && walk[0] == name :: |walk| <= 21)
              && forall n | Reachable(store, name, n) ::
                   n in store && forall p | p in store[n].parents :: Reachable(store, name, p)
    ensures MayDelete(store, name, ParentOnly) <==> name in store && store[name].parents == map[]
  {
    LongWalkIsWalk(store, name, 21);
    forall walk | IsWalk(store, walk) && walk[0] == name && |walk| > 21 ensures IsWalk(store, walk[..22]) {
    }
    if !LongWalk(store, name, 21) {
      forall n ensures n in Within(store, name, 21) <==> Reachable(store, name, n) {
        WithinIsReachable(store, name, 21, n);
      }
    }
  }

  /** The stored Deployments form a chain: each is the only child and the only parent of its
      neighbours. */
  ghost predicate IsChain(store: Store, chain: seq<Name>) {
    && chain != []
    && (forall i, j | 0 <= i < j < |chain| :: chain[i] != chain[j])
    && (forall n :: n in store <==> n in chain)
    && forall i: nat | i < |chain| :: IsLinked(store, chain, i)
  }

  ghost predicate IsLinked(store: Store, chain: seq<Name>, i: nat)
    requires i < |chain|
  {
    && chain[i] in store
    && store[chain[i]].children.Keys == (if i < |chain| - 1 then {chain[i + 1]} else {})
    && store[chain[i]].parents.Keys == (if i > 0 then {chain[i - 1]} else {})
  }

  lemma ChainPrefixIsWalk(store: Store, chain: seq<Name>, i: nat)
    requires IsChain(store, chain) && i < |chain|
    ensures IsWalkFromTo(store, chain[..i + 1], chain[0], chain[i])
  {
    forall j, k | 0 <= j && k == j + 1 < i + 1 ensures chain[k] in Children(store, chain[j]) {
      assert IsLinked(store, chain, j);
    }
  }

  lemma {:induction false} ChainWalksArePrefixes(store: Store, chain: seq<Name>, walk: seq<Name>)
    requires IsChain(store, chain) && IsWalk(store, walk) && walk[0] == chain[0]
    ensures |walk| <= |chain| && walk == chain[..|walk|]
    decreases |walk|
  {
    var last := |walk| - 1;
    if last > 0 {
      ChainWalksArePrefixes(store, chain, walk[..last]);
      var before := walk[last - 1];
      assert walk[..last][last - 1] == before == chain[last - 1];
      assert walk[last] in Children(store, before);
      assert IsLinked(store, chain, last - 1);
    }
  }

  lemma ChainReaches(store: Store, chain: seq<Name>, n: Name)
    requires IsChain(store, chain)
    ensures Reachable(store, chain[0], n) <==> n in store
  {
    if n in store {
      var i :| 0 <= i < |chain| && chain[i] == n;
      ChainPrefixIsWalk(store, chain, i);
    }
    if walk :| IsWalkFromTo(store, walk, chain[0], n) {
      ChainWalksArePrefixes(store, chain, walk);
    }
  }

  /** A chain can be deleted from its root exactly if it has at most 20 levels below it; then all
      of it goes. */
  lemma ChainIsDeletedIff(store: Store, chain: seq<Name>)
    requires IsChain(store, chain)
    ensures MayDelete(store, chain[0], All) <==> |chain| <= 21
    ensures |chain| <= 21 ==> Targets(store, chain[0], All) == store.Keys
  {
    GraphMayBeDeletedIff(store, chain[0]);
    ChainPrefixIsWalk(store, chain, |chain| - 1);
    assert chain[..|chain| - 1 + 1] == chain && chain[0] in chain && IsLinked(store, chain, 0);
    forall walk | IsWalk(store, walk) && walk[0] == chain[0] ensures |walk| <= |chain| {
      ChainWalksArePrefixes(store, chain, walk);
    }
    forall n ensures Reachable(store, chain[0], n) <==> n in store {
      ChainReaches(store, chain, n);
    }
    forall n, p | n in store && p in store[n].parents ensures p in store {
      var i :| 0 <= i < |chain| && chain[i] == n;
      assert IsLinked(store, chain, i);
    }
    if |chain| <= 21 {
      forall n ensures n in Within(store, chain[0], MAX_DEPTH + 1) <==> n in store {
        WithinIsReachable(store, chain[0], MAX_DEPTH + 1, n);
      }
    }
  }
}
