/** The two reconcile phases that work on links, as the controller runs them, and what the
    link protocol means for deleting a dependency graph. */
module DependencyReconciler {
  import opened Deployments
  import opened LinkProtocol
  import opened DeleteTraversal

  class Reconciler {
    var store: Store
    /** The run of the link protocol that led to `store`. */
    ghost var states: seq<State>
    ghost var actions: seq<Action>

    ghost predicate Valid()
      reads this
    {
      IsRun(states, actions) && Now().store == store
    }

    ghost function Now(): State
      requires states != []
      reads this
    {
      states[|states| - 1]
    }

    constructor ()
      ensures Valid() && store == map[]
    {
      store := map[];
      states, actions := [EMPTY], [];
    }

    ghost method Record(a: Action)
      requires IsRun(states, actions) && Enabled(Now(), a)
      modifies this`states, this`actions
      ensures IsRun(states, actions) && states == old(states) + [Next(old(Now()), a)]
    {
      states, actions := states + [Next(Now(), a)], actions + [a];
    }

    /** One turn of the linking loop: reads the child and patches its parent list unless the
        entry is there already. */
    method LinkOne(name: Name, child: Name, ref: PackageRef, failing: set<Name>) returns (ok: bool)
      requires Valid() && WorkerOf(Now(), name).Linking?
      requires WorkerOf(Now(), name).ref == ref && child in WorkerOf(Now(), name).todo
      modifies this
      ensures Valid() && old(states) <= states
      ensures ok <==> child in old(store) && (UpToDate(old(store), child, name, ref) || child !in failing)
      ensures store == if ok then WithParent(old(store), {child}, name, ref) else old(store)
      ensures WorkerOf(Now(), name) ==
              if ok then var w := old(WorkerOf(Now(), name)); w.(todo := w.todo - {child}) else Idle
    {
      Record(LinkChild(name, child, child !in failing));
      if child !in store {
        return false;
      }
      if UpToDate(store, child, name, ref) {
        assert store[child].parents == store[child].parents[name := DependentRef(ref, name)];
        assert store == WithParent(store, {child}, name, ref);
        return true;
      }
      if child in failing {
        return false;
      }
      store := store[child := store[child].(parents := store[child].parents[name := DependentRef(ref, name)])];
      assert store == WithParent(old(store), {child}, name, ref);
      return true;
    }

    /** Enters the Deployment read as `d` into the parent list of each of its children, up
        to the first child that is missing or whose patch is among `failing`. */
    method ReconcileDependency(name: Name, d: Deployment, failing: set<Name>) returns (ok: bool)
      requires Valid() && WorkerOf(Now(), name) == Linking(d.children.Keys, d.children.Keys, d.packageRef)
      modifies this
      ensures Valid() && old(states) <= states
      ensures ok <==> forall c | c in d.children ::
                c in old(store) && (UpToDate(old(store), c, name, d.packageRef) || c !in failing)
      ensures ok ==> store == WithParent(old(store), d.children.Keys, name, d.packageRef)
      ensures exists done :: done <= d.children.Keys && store == WithParent(old(store), done, name, d.packageRef)
      ensures WorkerOf(Now(), name).Idle?
      ensures ok ==> LinkedBy(Now(), name) == d.children.Keys
    {
      var todo := d.children.Keys;
      ghost var done: set<Name> := {};
      WithParentCompose(store, {}, {}, name, d.packageRef);
      while todo != {}
        invariant todo <= d.children.Keys && done == d.children.Keys - todo
        invariant Valid() && old(states) <= states
        invariant WorkerOf(Now(), name) == Linking(d.children.Keys, todo, d.packageRef)
        invariant store == WithParent(old(store), done, name, d.packageRef)
        invariant forall c | c in done ::
                    c in old(store) && (UpToDate(old(store), c, name, d.packageRef) || c !in failing)
        decreases todo
      {
        var c :| c in todo;
        WithParentCompose(old(store), done, {c}, name, d.packageRef);
        var linked := LinkOne(name, c, d.packageRef, failing);
        if !linked {
          return false;
        }
        todo := todo - {c};
        done := done + {c};
      }
      assert done == d.children.Keys;
      Record(FinishLinking(name));
      return true;
    }

    /** One turn of the unlinking loop. */
    method UnlinkOne(name: Name, child: Name, failing: set<Name>) returns (ok: bool)
      requires Valid() && WorkerOf(Now(), name).Unlinking? && child in WorkerOf(Now(), name).left
      modifies this
      ensures Valid() && old(states) <= states
      ensures ok <==> (child in old(store) && old(store)[child].parents != map[] ==> child !in failing)
      ensures store == if ok then WithoutParent(old(store), {child}, name) else old(store)
      ensures WorkerOf(Now(), name) == var w := old(WorkerOf(Now(), name));
              if ok then w.(left := w.left - {child}) else Releasing(w.held)
    {
      Record(UnlinkChild(name, child, child !in failing));
      if child !in store || store[child].parents == map[] {
        assert store == WithoutParent(store, {child}, name);
        return true;
      }
      if child in failing {
        return false;
      }
      store := store[child := store[child].(parents := store[child].parents - {name})];
      assert store == WithoutParent(old(store), {child}, name);
      return true;
    }

    /** Takes the Deployment read as `d` out of the parent lists of its children; `keep` are
        the finalizers that the closing patch is to leave. */
    method HandleFinalizerDependency(name: Name, d: Deployment, failing: set<Name>)
      returns (ok: bool, keep: set<Finalizer>)
      requires Valid() && WorkerOf(Now(), name) == Unlinking(d.children.Keys, d.finalizers)
      modifies this
      ensures Valid() && old(states) <= states
      ensures ok <==> forall c | c in d.children && c in old(store) && old(store)[c].parents != map[] :: c !in failing
      ensures ok ==> store == WithoutParent(old(store), d.children.Keys, name)
      ensures exists done :: done <= d.children.Keys && store == WithoutParent(old(store), done, name)
      ensures keep == if ok then d.finalizers - {Dependency} else d.finalizers
      ensures WorkerOf(Now(), name) == Releasing(keep)
    {
      var todo := d.children.Keys;
      ghost var done: set<Name> := {};
      WithoutParentCompose(store, {}, {}, name);
      while todo != {}
        invariant todo <= d.children.Keys && done == d.children.Keys - todo
        invariant Valid() && old(states) <= states
        invariant WorkerOf(Now(), name) == Unlinking(todo, d.finalizers)
        invariant store == WithoutParent(old(store), done, name)
        invariant forall c | c in done && c in old(store) && old(store)[c].parents != map[] :: c !in failing
        decreases todo
      {
        var c :| c in todo;
        WithoutParentCompose(old(store), done, {c}, name);
        var unlinked := UnlinkOne(name, c, failing);
        if !unlinked {
          return false, d.finalizers;
        }
        todo := todo - {c};
        done := done + {c};
      }
      assert done == d.children.Keys;
      Record(DropFinalizer(name));
      return true, d.finalizers - {Dependency};
    }

    /** Reconcile, as far as links are concerned: `others` are the finalizers that the remaining
        phases of a deletion give up, and `patchFails` says whether the closing patch fails. */
    method Reconcile(name: Name, deleteGitRepo: bool, failing: set<Name>, others: set<Finalizer>, patchFails: bool)
      requires Valid() && WorkerOf(Now(), name).Idle? && Dependency !in others
      modifies this
      ensures Valid() && old(states) <= states && WorkerOf(Now(), name).Idle?
      ensures name !in old(store) ==> store == old(store)
      ensures name in old(store) && !old(store)[name].deleting ==>
                var d := old(store)[name];
                if deleteGitRepo && GitRemote !in d.finalizers then
                  store == if patchFails then old(store) else old(store)[name := d.(finalizers := d.finalizers + {GitRemote})]
                else if Dependency !in d.finalizers then
                  store == if patchFails then old(store) else old(store)[name := d.(finalizers := d.finalizers + {Dependency})]
                else if d.children.Keys <= old(store).Keys - failing then
                  OnlyLinked(old(store), store, d.children.Keys, name, d.packageRef) && LinkedBy(Now(), name) == d.children.Keys
                else
                  exists done :: done <= d.children.Keys && store == WithParent(old(store), done, name, d.packageRef)
      ensures name in old(store) && old(store)[name].deleting && Dependency in old(store)[name].finalizers
              && old(store)[name].children.Keys !! failing && !patchFails ==>
                Released(old(store), store, name, others)
    {
      if name !in store {
        return;
      }
      var d := store[name];
      RunsKeepInv(states, actions, |states| - 1);
      ghost var store0 := store;
      Record(Begin(name, deleteGitRepo, !patchFails));
      if d.deleting {
        Delete(name, d, failing, others, patchFails);
      } else if deleteGitRepo && GitRemote !in d.finalizers {
        store := if patchFails then store else store[name := d.(finalizers := d.finalizers + {GitRemote})];
      } else if Dependency !in d.finalizers {
        store := if patchFails then store else store[name := d.(finalizers := d.finalizers + {Dependency})];
      } else {
        var ok := ReconcileDependency(name, d, failing);
      }
    }

    /** The deletion phases and the closing patch. */
    method Delete(name: Name, d: Deployment, failing: set<Name>, others: set<Finalizer>, patchFails: bool)
      requires Valid() && EntriesAreBacked(store) && name in store && store[name] == d && d.deleting && Dependency !in others
      requires WorkerOf(Now(), name) ==
               if Dependency in d.finalizers then Unlinking(d.children.Keys, d.finalizers) else Releasing(d.finalizers)
      modifies this
      ensures Valid() && old(states) <= states && WorkerOf(Now(), name).Idle?
      ensures Dependency in d.finalizers && d.children.Keys !! failing && !patchFails ==> Released(old(store), store, name, others)
    {
      var keep := d.finalizers;
      if Dependency in d.finalizers {
        var ok;
        ok, keep := HandleFinalizerDependency(name, d, failing);
      }
      assert name in store && store[name].deleting;
      ghost var between := store;
      Record(Release(name, others, !patchFails));
      if !patchFails {
        store := if keep - others == {} then store - {name} else store[name := store[name].(finalizers := keep - others)];
        if Dependency in d.finalizers && d.children.Keys !! failing {
          NothingIsLeft(old(store), between, name, others);
        }
      }
    }
  }

  lemma WithParentCompose(store: Store, first: set<Name>, second: set<Name>, parent: Name, ref: PackageRef)
    ensures WithParent(WithParent(store, first, parent, ref), second, parent, ref) ==
            WithParent(store, first + second, parent, ref)
    ensures WithParent(store, {}, parent, ref) == store
    ensures forall c | c !in first ::
              (c in WithParent(store, first, parent, ref) <==> c in store)
              && (UpToDate(WithParent(store, first, parent, ref), c, parent, ref) <==> UpToDate(store, c, parent, ref))
  {
    var entry := DependentRef(ref, parent);
    assert forall n | n in store ::
      store[n].parents[parent := entry][parent := entry] == store[n].parents[parent := entry];
  }

  lemma WithoutParentCompose(store: Store, first: set<Name>, second: set<Name>, parent: Name)
    ensures WithoutParent(WithoutParent(store, first, parent), second, parent) ==
            WithoutParent(store, first + second, parent)
    ensures WithoutParent(store, {}, parent) == store
    ensures forall c | c in store && c !in first :: WithoutParent(store, first, parent)[c] == store[c]
  {
    assert forall n | n in store :: store[n].parents - {parent} - {parent} == store[n].parents - {parent};
  }

  /** Every live Deployment has been through an error-free linking pass over its present child
      list; others may be on their way out. */
  ghost predicate Settled(s: State) {
    forall n | IsLive(s.store, n) :: s.store[n].children.Keys <= LinkedBy(s, n)
  }

  lemma SettledRecordsLiveParents(s: State)
    requires Inv(s) && Settled(s)
    ensures RecordsLiveParents(s.store)
  {
    forall p, c | IsLive(s.store, p) && c in s.store && c in s.store[p].children
      ensures p in s.store[c].parents
    {
      assert LinkedFits(s, p);
      assert Records(s.store, c, p);
    }
  }

  /** Whatever interleaving of requests, reconciles, deletions and failures led to a settled
      state: a delete request that goes through there leaves no live Deployment behind that
      lists a deleted one as its child, and none that leads to one over live Deployments. */
  lemma DeleteInSettledStateIsSafe(run: seq<State>, actions: seq<Action>, i: nat,
                                   name: Name, kind: DeleteType, survivor: Name, walk: seq<Name>)
    requires IsRun(run, actions) && i < |run| && Settled(run[i])
    requires MayDelete(run[i].store, name, kind)
    requires survivor !in Targets(run[i].store, name, kind)
    ensures IsLive(run[i].store, survivor) ==> Children(run[i].store, survivor) !! Targets(run[i].store, name, kind)
    ensures IsLiveWalk(run[i].store, walk) && walk[0] == survivor ==>
              walk[|walk| - 1] !in Targets(run[i].store, name, kind)
  {
    RunsKeepInv(run, actions, i);
    SettledRecordsLiveParents(run[i]);
    var store := run[i].store;
    if IsLive(store, survivor) {
      forall deleted | deleted in Targets(store, name, kind) ensures deleted !in Children(store, survivor) {
        DeleteIsSafe(store, name, kind, survivor, deleted);
      }
    }
    if IsLiveWalk(store, walk) && walk[0] == survivor && walk[|walk| - 1] in Targets(store, name, kind) {
      DeleteIsSafe(store, name, kind, survivor, walk[|walk| - 1]);
    }
  }
}
