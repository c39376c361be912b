/** The protocol that mirrors parent-to-child edges into the children's parent lists and
    guards their removal with the dependency finalizer. One action is one call to the API
    server; calls of the API, of the webhook and of the reconcilers of different
    Deployments interleave freely, and every patch may fail. */
module LinkProtocol {
  import opened Deployments

  /** Where the reconciler of one Deployment stands between two calls. */
  datatype Worker =
    | Idle
    | Linking(all: set<Name>, todo: set<Name>, ref: PackageRef)
    | Unlinking(left: set<Name>, held: set<Finalizer>)
    | Releasing(keep: set<Finalizer>)

  /** `used` holds every name ever given out, and `linked` the children that the last
      error-free pass over a Deployment's child list went through. */
  datatype State = State(store: Store, workers: map<Name, Worker>, used: set<Name>, linked: map<Name, set<Name>>)

  datatype Action =
    | Create(name: Name, d: Deployment, deleteGitRepo: bool)
    | Update(name: Name, ref: PackageRef, children: map<Name, DependentRef>, sent: set<Finalizer>, deleteGitRepo: bool)
    | Delete(name: Name)
    | Begin(name: Name, deleteGitRepo: bool, ok: bool)
    | LinkChild(name: Name, child: Name, ok: bool)
    | FinishLinking(name: Name)
    | UnlinkChild(name: Name, child: Name, ok: bool)
    | DropFinalizer(name: Name)
    | Release(name: Name, others: set<Finalizer>, ok: bool)

  function WorkerOf(s: State, name: Name): Worker {
    if name in s.workers then s.workers[name] else Idle
  }

  function LinkedBy(s: State, name: Name): set<Name> {
    if name in s.linked then s.linked[name] else {}
  }

  predicate Enabled(s: State, a: Action) {
    match a
    case Create(n, d, _) => n !in s.used && n !in s.store && !d.deleting
    case Update(n, _, children, _, _) =>
      n in s.store && !s.store[n].deleting && s.store[n].children.Keys <= children.Keys
    case Delete(n) => n in s.store
    case Begin(n, _, _) => n in s.store && WorkerOf(s, n).Idle?
    case LinkChild(n, c, _) => WorkerOf(s, n).Linking? && c in WorkerOf(s, n).todo
    case FinishLinking(n) => WorkerOf(s, n).Linking? && WorkerOf(s, n).todo == {}
    case UnlinkChild(n, c, _) => WorkerOf(s, n).Unlinking? && c in WorkerOf(s, n).left
    case DropFinalizer(n) => WorkerOf(s, n).Unlinking? && WorkerOf(s, n).left == {}
    case Release(n, others, _) => WorkerOf(s, n).Releasing? && Dependency !in others && n in s.store
  }

  // ---------------------------------------------------------------------------
  // What the calls do to the store
  // ---------------------------------------------------------------------------

  function WithParent(store: Store, children: set<Name>, parent: Name, ref: PackageRef): Store {
    map n | n in store ::
      if n in children then store[n].(parents := store[n].parents[parent := DependentRef(ref, parent)])
      else store[n]
  }

  function WithoutParent(store: Store, children: set<Name>, parent: Name): Store {
    map n | n in store ::
      if n in children then store[n].(parents := store[n].parents - {parent}) else store[n]
  }

  /** The object goes away with its last finalizer. */
  function WithFinalizers(store: Store, name: Name, finalizers: set<Finalizer>): Store
    requires name in store
  {
    if finalizers == {} && store[name].deleting then store - {name}
    else store[name := store[name].(finalizers := finalizers)]
  }

  predicate UpToDate(store: Store, child: Name, parent: Name, ref: PackageRef) {
    && child in store
    && parent in store[child].parents
    && store[child].parents[parent] == DependentRef(ref, parent)
  }

  function SetWorker(s: State, name: Name, w: Worker): State {
    s.(workers := s.workers[name := w])
  }

  /** A reconcile starts from a fresh read of its Deployment. */
  function Begun(s: State, name: Name, deleteGitRepo: bool, ok: bool): State
    requires name in s.store
  {
    var d := s.store[name];
    if !d.deleting && deleteGitRepo && GitRemote !in d.finalizers then
      if ok then s.(store := WithFinalizers(s.store, name, d.finalizers + {GitRemote})) else s
    else if !d.deleting && Dependency !in d.finalizers then
      if ok then s.(store := WithFinalizers(s.store, name, d.finalizers + {Dependency})) else s
    else if d.deleting then
      if Dependency in d.finalizers then SetWorker(s, name, Unlinking(d.children.Keys, d.finalizers))
      else SetWorker(s, name, Releasing(d.finalizers))
    else
      SetWorker(s, name, Linking(d.children.Keys, d.children.Keys, d.packageRef))
  }

  function ChildLinked(s: State, name: Name, child: Name, ok: bool): State
    requires WorkerOf(s, name).Linking?
  {
    var w := WorkerOf(s, name);
    if child !in s.store then SetWorker(s, name, Idle)
    else if UpToDate(s.store, child, name, w.ref) then SetWorker(s, name, w.(todo := w.todo - {child}))
    else if !ok then SetWorker(s, name, Idle)
    else SetWorker(s.(store := WithParent(s.store, {child}, name, w.ref)), name, w.(todo := w.todo - {child}))
  }

  /** A failed call leaves the finalizer in place; the later phases still run. */
  function ChildUnlinked(s: State, name: Name, child: Name, ok: bool): State
    requires WorkerOf(s, name).Unlinking?
  {
    var w := WorkerOf(s, name);
    if child !in s.store || s.store[child].parents == map[] then SetWorker(s, name, w.(left := w.left - {child}))
    else if !ok then SetWorker(s, name, Releasing(w.held))
    else SetWorker(s.(store := WithoutParent(s.store, {child}, name)), name, w.(left := w.left - {child}))
  }

  function Next(s: State, a: Action): State
    requires Enabled(s, a)
  {
    match a
    case Create(n, d, deleteGitRepo) =>
      s.(store := s.store[n := WithDefaults(d.(parents := map[]), deleteGitRepo)], used := s.used + {n})
    case Update(n, ref, children, sent, deleteGitRepo) =>
      var d := s.store[n].(packageRef := ref, children := children, finalizers := sent);
      s.(store := s.store[n := WithDefaults(d, deleteGitRepo)])
    case Delete(n) => s.(store := DeleteAll(s.store, {n}))
    case Begin(n, deleteGitRepo, ok) => Begun(s, n, deleteGitRepo, ok)
    case LinkChild(n, c, ok) => ChildLinked(s, n, c, ok)
    case FinishLinking(n) => SetWorker(s.(linked := s.linked[n := WorkerOf(s, n).all]), n, Idle)
    case UnlinkChild(n, c, ok) => ChildUnlinked(s, n, c, ok)
    case DropFinalizer(n) => SetWorker(s, n, Releasing(WorkerOf(s, n).held - {Dependency}))
    case Release(n, others, ok) =>
      if ok then SetWorker(s.(store := WithFinalizers(s.store, n, WorkerOf(s, n).keep - others)), n, Idle)
      else SetWorker(s, n, Idle)
  }

  // ---------------------------------------------------------------------------
  // Invariant
  // ---------------------------------------------------------------------------

  /** No entry outlives its parent: a recorded parent is stored, still carries the
      dependency finalizer and still lists the child. */
  ghost predicate EntriesAreBacked(store: Store) {
    forall c, p | Records(store, c, p) ::
      p in store && Dependency in store[p].finalizers && c in store[p].children
  }

  ghost predicate Records(store: Store, child: Name, parent: Name) {
    child in store && parent in store[child].parents
  }

  ghost predicate WorkerFits(s: State, n: Name) {
    match WorkerOf(s, n)
    case Idle => true
    case Linking(all, todo, _) =>
      && n in s.store && Dependency in s.store[n].finalizers
      && todo <= all <= s.store[n].children.Keys && all - todo <= s.used
      && forall c | c in all - todo && c in s.store :: Records(s.store, c, n)
    case Unlinking(left, held) =>
      && n in s.store && s.store[n].deleting && held == s.store[n].finalizers && Dependency in held
      && forall c | Records(s.store, c, n) :: c in left
    case Releasing(keep) =>
      && n in s.store && s.store[n].deleting && keep <= s.store[n].finalizers
      && (Dependency !in keep ==> forall c :: !Records(s.store, c, n))
  }

  ghost predicate LinkedFits(s: State, n: Name) {
    n in s.store && !s.store[n].deleting ==>
      forall c | c in LinkedBy(s, n) && c in s.store :: Records(s.store, c, n)
  }

  /** While a reconciler is taking links away its Deployment is marked for deletion, and
      a name leaves the store for good. */
  ghost predicate Inv(s: State) {
    && EntriesAreBacked(s.store)
    && s.store.Keys <= s.used
    && (forall n | n in s.store && s.store[n].deleting :: s.store[n].finalizers != {})
    && (forall n :: WorkerFits(s, n))
    && (forall n :: LinkedFits(s, n))
    && (forall n | n in s.linked :: n in s.used && s.linked[n] <= s.used)
  }

  // ---------------------------------------------------------------------------
  // Every action keeps the invariant
  // ---------------------------------------------------------------------------

  /** What `s'` must leave alone for the worker and the links of `n` to stay right. */
  ghost predicate Undisturbed(s: State, s': State, n: Name) {
    && WorkerOf(s', n) == WorkerOf(s, n)
    && LinkedBy(s', n) == LinkedBy(s, n)
    && (n in s.store && !WorkerOf(s, n).Idle? ==> Kept(s, s', n))
    && (n in s'.store && n in s.store && !s'.store[n].deleting ==> !s.store[n].deleting)
    && (forall c :: Records(s'.store, c, n) ==> Records(s.store, c, n))
    && (forall c :: Records(s.store, c, n) && c in s'.store ==> Records(s'.store, c, n))
  }

  ghost predicate Kept(s: State, s': State, n: Name)
    requires n in s.store
  {
    && n in s'.store
    && s.store[n].children.Keys <= s'.store[n].children.Keys
    && (Dependency in s.store[n].finalizers ==> Dependency in s'.store[n].finalizers)
    && (s.store[n].deleting ==> s'.store[n].deleting && s'.store[n].finalizers == s.store[n].finalizers)
  }

  ghost predicate NamesFresh(s: State, s': State) {
    && s.used <= s'.used
    && forall c | c in s'.store && c !in s.store :: c !in s.used
  }

  lemma UndisturbedFits(s: State, s': State, n: Name)
    requires Inv(s) && Undisturbed(s, s', n) && NamesFresh(s, s')
    ensures WorkerFits(s', n) && LinkedFits(s', n)
  {
    assert WorkerFits(s, n) && LinkedFits(s, n);
    assert n !in s.used ==> LinkedBy(s, n) == {};
    assert LinkedBy(s, n) <= s.used;
  }

  /** The parts of the invariant that mention no worker. */
  ghost predicate StoreFits(s: State) {
    && EntriesAreBacked(s.store)
    && s.store.Keys <= s.used
    && (forall n | n in s.store && s.store[n].deleting :: s.store[n].finalizers != {})
    && (forall n | n in s.linked :: n in s.used && s.linked[n] <= s.used)
  }

  lemma Assemble(s: State, s': State, name: Name)
    requires Inv(s) && StoreFits(s') && NamesFresh(s, s')
    requires WorkerFits(s', name) && LinkedFits(s', name)
    requires forall n | n != name :: Undisturbed(s, s', n)
    ensures Inv(s')
  {
    forall n ensures WorkerFits(s', n) && LinkedFits(s', n) {
      if n != name {
        UndisturbedFits(s, s', n);
      }
    }
  }

  lemma SetWorkerKeepsInv(s: State, name: Name, w: Worker)
    requires Inv(s) && WorkerFits(SetWorker(s, name, w), name)
    ensures Inv(SetWorker(s, name, w))
  {
    var s' := SetWorker(s, name, w);
    assert LinkedFits(s, name);
    forall n | n != name ensures Undisturbed(s, s', n) {
    }
    Assemble(s, s', name);
  }

  /** `after` is `before` with one object created or overwritten, its parents unchanged. */
  ghost predicate OnlySpec(before: Store, after: Store, name: Name) {
    && after.Keys == before.Keys + {name}
    && (forall n | n in before && n != name :: after[n] == before[n])
    && (forall c, p :: Records(after, c, p) <==> Records(before, c, p))
    && Dependency in after[name].finalizers
    && !after[name].deleting
    && (name in before ==> !before[name].deleting && before[name].children.Keys <= after[name].children.Keys)
  }

  lemma SpecChangeKeepsInv(s: State, s': State, name: Name)
    requires Inv(s) && OnlySpec(s.store, s'.store, name)
    requires s' == s.(store := s'.store, used := s.used + {name})
    requires name in s.store || name !in s.used
    ensures Inv(s')
  {
    assert WorkerFits(s, name) && LinkedFits(s, name);
    assert Undisturbed(s, s', name);
    UndisturbedFits(s, s', name);
    forall n | n != name ensures Undisturbed(s, s', n) {
    }
    Assemble(s, s', name);
  }

  /** `after` is `before` with finalizers or the deletion mark of `name` changed, or with
      `name` gone. */
  ghost predicate OnlyMeta(before: Store, after: Store, name: Name) {
    && name in before
    && after.Keys <= before.Keys <= after.Keys + {name}
    && (forall n | n in before && n != name :: after[n] == before[n])
    && (name in after ==> after[name].children == before[name].children
                          && (before[name].deleting ==> after[name].deleting))
    && (forall c, p :: Records(after, c, p) <==> Records(before, c, p) && c in after)
  }

  lemma MetaChangeKeepsInv(s: State, s': State, name: Name)
    requires Inv(s) && OnlyMeta(s.store, s'.store, name)
    requires s' == s.(store := s'.store, workers := s'.workers)
    requires forall n | n != name :: WorkerOf(s', n) == WorkerOf(s, n)
    requires WorkerFits(s', name)
    requires name in s'.store && s'.store[name].deleting ==> s'.store[name].finalizers != {}
    requires forall c :: Records(s'.store, c, name) ==>
               name in s'.store && Dependency in s'.store[name].finalizers
    ensures Inv(s')
  {
    assert LinkedFits(s, name);
    forall n | n != name ensures Undisturbed(s, s', n) {
    }
    Assemble(s, s', name);
  }

  lemma FinalizersEffect(store: Store, name: Name, finalizers: set<Finalizer>)
    requires name in store
    ensures OnlyMeta(store, WithFinalizers(store, name, finalizers), name)
  {
  }

  lemma DeleteEffect(store: Store, name: Name)
    requires name in store
    ensures OnlyMeta(store, DeleteAll(store, {name}), name)
  {
  }

  lemma DeleteKeepsInv(s: State, a: Action)
    requires Inv(s) && Enabled(s, a) && a.Delete?
    ensures Inv(Next(s, a))
  {
    assert WorkerFits(s, a.name);
    DeleteEffect(s.store, a.name);
    MetaChangeKeepsInv(s, Next(s, a), a.name);
  }

  lemma RequestKeepsInv(s: State, a: Action)
    requires Inv(s) && Enabled(s, a) && (a.Create? || a.Update?)
    ensures Inv(Next(s, a))
  {
    SpecChangeKeepsInv(s, Next(s, a), a.name);
  }

  lemma BeginKeepsInv(s: State, a: Action)
    requires Inv(s) && Enabled(s, a) && a.Begin?
    ensures Inv(Next(s, a))
  {
    var s', d := Next(s, a), s.store[a.name];
    assert WorkerFits(s, a.name);
    if s'.workers != s.workers {
      SetWorkerKeepsInv(s, a.name, WorkerOf(s', a.name));
    } else if s'.store != s.store {
      var added := if a.deleteGitRepo && GitRemote !in d.finalizers then GitRemote else Dependency;
      FinalizersEffect(s.store, a.name, d.finalizers + {added});
      MetaChangeKeepsInv(s, s', a.name);
    }
  }

  /** `after` is `before` except perhaps for the entry of `parent` in `child`. */
  ghost predicate OnlyEntry(before: Store, after: Store, child: Name, parent: Name, present: bool) {
    && after.Keys == before.Keys
    && (forall n | n in before :: after[n].children == before[n].children
                                  && after[n].finalizers == before[n].finalizers
                                  && after[n].deleting == before[n].deleting)
    && (forall c, p :: Records(after, c, p) <==> if c == child && p == parent then present else Records(before, c, p))
  }

  lemma EntryChangeKeepsInv(s: State, s': State, name: Name, child: Name, present: bool)
    requires Inv(s) && OnlyEntry(s.store, s'.store, child, name, present)
    requires s' == s.(store := s'.store, workers := s'.workers)
    requires forall n | n != name :: WorkerOf(s', n) == WorkerOf(s, n)
    requires WorkerOf(s, name).Linking? || WorkerOf(s, name).Unlinking?
    requires present ==> WorkerOf(s, name).Linking? && child in WorkerOf(s, name).all
    requires WorkerFits(s', name) && LinkedFits(s', name)
    ensures Inv(s')
  {
    assert WorkerFits(s, name);
    forall n | n != name ensures Undisturbed(s, s', n) {
    }
    Assemble(s, s', name);
  }

  lemma LinkEffect(store: Store, child: Name, parent: Name, ref: PackageRef)
    requires child in store
    ensures OnlyEntry(store, WithParent(store, {child}, parent, ref), child, parent, true)
    ensures UpToDate(store, child, parent, ref) ==> OnlyEntry(store, store, child, parent, true)
  {
    assert UpToDate(store, child, parent, ref) ==> Records(store, child, parent);
  }

  lemma UnlinkEffect(store: Store, child: Name, parent: Name)
    ensures OnlyEntry(store, WithoutParent(store, {child}, parent), child, parent, false)
    ensures child !in store || store[child].parents == map[] ==> OnlyEntry(store, store, child, parent, false)
  {
  }

  lemma LinkKeepsInv(s: State, a: Action)
    requires Inv(s) && Enabled(s, a) && a.LinkChild?
    ensures Inv(Next(s, a))
  {
    var s' := Next(s, a);
    assert WorkerFits(s, a.name) && LinkedFits(s, a.name);
    if WorkerOf(s', a.name).Idle? {
      SetWorkerKeepsInv(s, a.name, Idle);
    } else {
      LinkEffect(s.store, a.child, a.name, WorkerOf(s, a.name).ref);
      EntryChangeKeepsInv(s, s', a.name, a.child, true);
    }
  }

  lemma FinishKeepsInv(s: State, a: Action)
    requires Inv(s) && Enabled(s, a) && a.FinishLinking?
    ensures Inv(Next(s, a))
  {
    var s' := Next(s, a);
    assert WorkerFits(s, a.name);
    forall n | n != a.name ensures Undisturbed(s, s', n) {
    }
    Assemble(s, s', a.name);
  }

  lemma UnlinkKeepsInv(s: State, a: Action)
    requires Inv(s) && Enabled(s, a) && a.UnlinkChild?
    ensures Inv(Next(s, a))
  {
    var s' := Next(s, a);
    assert WorkerFits(s, a.name) && LinkedFits(s, a.name);
    if WorkerOf(s', a.name).Releasing? {
      SetWorkerKeepsInv(s, a.name, WorkerOf(s', a.name));
    } else {
      UnlinkEffect(s.store, a.child, a.name);
      EntryChangeKeepsInv(s, s', a.name, a.child, false);
    }
  }

  lemma DropKeepsInv(s: State, a: Action)
    requires Inv(s) && Enabled(s, a) && a.DropFinalizer?
    ensures Inv(Next(s, a))
  {
    assert WorkerFits(s, a.name);
    SetWorkerKeepsInv(s, a.name, Releasing(WorkerOf(s, a.name).held - {Dependency}));
  }

  lemma ReleaseKeepsInv(s: State, a: Action)
    requires Inv(s) && Enabled(s, a) && a.Release?
    ensures Inv(Next(s, a))
  {
    assert WorkerFits(s, a.name);
    if a.ok {
      var rest := WorkerOf(s, a.name).keep - a.others;
      assert Dependency in WorkerOf(s, a.name).keep ==> Dependency in rest;
      FinalizersEffect(s.store, a.name, rest);
      MetaChangeKeepsInv(s, Next(s, a), a.name);
    } else {
      SetWorkerKeepsInv(s, a.name, Idle);
    }
  }

  lemma NextKeepsInv(s: State, a: Action)
    requires Inv(s) && Enabled(s, a)
    ensures Inv(Next(s, a))
  {
    match a
    case Create(_, _, _) => RequestKeepsInv(s, a);
    case Update(_, _, _, _, _) => RequestKeepsInv(s, a);
    case Delete(_) => DeleteKeepsInv(s, a);
    case Begin(_, _, _) => BeginKeepsInv(s, a);
    case LinkChild(_, _, _) => LinkKeepsInv(s, a);
    case FinishLinking(_) => FinishKeepsInv(s, a);
    case UnlinkChild(_, _, _) => UnlinkKeepsInv(s, a);
    case DropFinalizer(_) => DropKeepsInv(s, a);
    case Release(_, _, _) => ReleaseKeepsInv(s, a);
  }

  // ---------------------------------------------------------------------------
  // Runs
  // ---------------------------------------------------------------------------

  const EMPTY := State(map[], map[], {}, map[])

  /** `run` lists the states passed through and `actions` the calls between them. */
  ghost predicate IsRun(run: seq<State>, actions: seq<Action>) {
    && |run| == |actions| + 1
    && run[0] == EMPTY
    && forall i | 0 <= i < |actions| :: Enabled(run[i], actions[i]) && run[i + 1] == Next(run[i], actions[i])
  }

  lemma {:induction false} RunsKeepInv(run: seq<State>, actions: seq<Action>, i: nat)
    requires IsRun(run, actions) && i < |run|
    ensures Inv(run[i])
  {
    if i == 0 {
      assert forall n :: WorkerFits(run[0], n) && LinkedFits(run[0], n);
    } else {
      RunsKeepInv(run, actions, i - 1);
      NextKeepsInv(run[i - 1], actions[i - 1]);
    }
  }

  /** In every state of every run, a parent that a child records is still stored, still
      carries the dependency finalizer and still lists that child. */
  lemma NoEntryOutlivesItsParent(run: seq<State>, actions: seq<Action>, i: nat, child: Name, parent: Name)
    requires IsRun(run, actions) && i < |run|
    requires Records(run[i].store, child, parent)
    ensures parent in run[i].store
    ensures Dependency in run[i].store[parent].finalizers
    ensures child in run[i].store[parent].children
  {
    RunsKeepInv(run, actions, i);
  }

  /** The only call that takes an entry away from a stored child is the unlinking call of
      that very parent, once it is marked for deletion. */
  lemma EntriesLeaveOnlyByUnlinking(s: State, a: Action, child: Name, parent: Name)
    requires Inv(s) && Enabled(s, a)
    requires Records(s.store, child, parent) && child in Next(s, a).store
    requires !Records(Next(s, a).store, child, parent)
    ensures a == UnlinkChild(parent, child, true)
    ensures parent in s.store && s.store[parent].deleting
  {
    var s' := Next(s, a);
    assert WorkerFits(s, a.name);
    assert s'.store[child] != s.store[child];
    if a.LinkChild? {
      LinkEffect(s.store, a.child, a.name, WorkerOf(s, a.name).ref);
    } else if a.UnlinkChild? {
      UnlinkEffect(s.store, a.child, a.name);
    }
  }

  // ---------------------------------------------------------------------------
  // Progress
  // ---------------------------------------------------------------------------

  /** The calls can be made one after the other, and what they lead to. */
  ghost predicate Possible(s: State, actions: seq<Action>)
    decreases |actions|
  {
    actions == [] || (Enabled(s, actions[0]) && Possible(Next(s, actions[0]), actions[1..]))
  }

  ghost function After(s: State, actions: seq<Action>): State
    requires Possible(s, actions)
    decreases |actions|
  {
    if actions == [] then s else After(Next(s, actions[0]), actions[1..])
  }

  lemma OneMore(s: State, a: Action, actions: seq<Action>)
    requires Enabled(s, a) && Possible(Next(s, a), actions)
    ensures Possible(s, [a] + actions) && After(s, [a] + actions) == After(Next(s, a), actions)
  {
    assert ([a] + actions)[1..] == actions;
  }

  lemma {:induction false} PossibleCompose(s: State, first: seq<Action>, second: seq<Action>)
    requires Possible(s, first) && Possible(After(s, first), second)
    ensures Possible(s, first + second) && After(s, first + second) == After(After(s, first), second)
    decreases |first|
  {
    if first == [] {
      assert first + second == second;
    } else {
      PossibleCompose(Next(s, first[0]), first[1..], second);
      OneMore(s, first[0], first[1..] + second);
      assert first + second == [first[0]] + (first[1..] + second);
    }
  }

  /** An order of the children in which Go may visit them. */
  ghost predicate IsOrderOf(order: seq<Name>, names: set<Name>) {
    && (forall c :: c in order <==> c in names)
    && forall i, j | 0 <= i < j < |order| :: order[i] != order[j]
  }

  function LinkCalls(name: Name, order: seq<Name>): seq<Action> {
    if order == [] then [FinishLinking(name)] else [LinkChild(name, order[0], true)] + LinkCalls(name, order[1..])
  }

  function UnlinkCalls(name: Name, order: seq<Name>): seq<Action> {
    if order == [] then [DropFinalizer(name)] else [UnlinkChild(name, order[0], true)] + UnlinkCalls(name, order[1..])
  }

  /** Every stored child names the parent with this reference; nothing else has changed. */
  ghost predicate OnlyLinked(before: Store, after: Store, children: set<Name>, parent: Name, ref: PackageRef) {
    && after.Keys == before.Keys
    && forall n | n in before ::
         after[n] == if n in children then before[n].(parents := before[n].parents[parent := DependentRef(ref, parent)])
                     else before[n]
  }

  /** No stored child names the parent; nothing else has changed. */
  ghost predicate OnlyUnlinked(before: Store, after: Store, children: set<Name>, parent: Name) {
    && after.Keys == before.Keys
    && forall n | n in before ::
         after[n] == if n in children then before[n].(parents := before[n].parents - {parent}) else before[n]
  }

  lemma RestOfOrder(order: seq<Name>, names: set<Name>)
    requires IsOrderOf(order, names) && order != []
    ensures order[0] in names && IsOrderOf(order[1..], names - {order[0]})
  {
    assert forall c | c in order[1..] :: c in order;
    assert forall c | c in order && c != order[0] :: c in order[1..] by {
      forall c | c in order && c != order[0] ensures c in order[1..] {
        var i :| 0 <= i < |order| && order[i] == c;
        assert order[1..][i - 1] == c;
      }
    }
  }

  lemma {:induction false} LinkCallsGoThrough(s: State, name: Name, order: seq<Name>)
    requires WorkerOf(s, name).Linking? && IsOrderOf(order, WorkerOf(s, name).todo)
    requires WorkerOf(s, name).todo <= s.store.Keys
    ensures Possible(s, LinkCalls(name, order))
    ensures var s', w := After(s, LinkCalls(name, order)), WorkerOf(s, name);
            && WorkerOf(s', name) == Idle && LinkedBy(s', name) == w.all
            && OnlyLinked(s.store, s'.store, w.todo, name, w.ref)
    decreases |order|
  {
    if order == [] {
      OneMore(s, FinishLinking(name), []);
      assert LinkCalls(name, order) == [FinishLinking(name)] + [];
    } else {
      var a := LinkChild(name, order[0], true);
      RestOfOrder(order, WorkerOf(s, name).todo);
      LinkCallsGoThrough(Next(s, a), name, order[1..]);
      OneMore(s, a, LinkCalls(name, order[1..]));
      LinkedStep(s.store, Next(s, a).store, After(s, LinkCalls(name, order)).store, WorkerOf(s, name).todo, order[0], name,
                 WorkerOf(s, name).ref);
    }
  }

  lemma LinkedStep(before: Store, between: Store, after: Store, todo: set<Name>, child: Name, parent: Name, ref: PackageRef)
    requires child in todo && child in before
    requires between == WithParent(before, {child}, parent, ref) || (between == before && UpToDate(before, child, parent, ref))
    requires OnlyLinked(between, after, todo - {child}, parent, ref)
    ensures OnlyLinked(before, after, todo, parent, ref)
  {
    if UpToDate(before, child, parent, ref) {
      assert before[child].parents[parent := DependentRef(ref, parent)] == before[child].parents;
    }
  }

  /** A reconcile of a live Deployment that has its finalizers and whose children are all stored
      can go through, with the children in any order: afterwards exactly its children name it,
      with its present reference, and it counts as linked. */
  lemma LinkingCanComplete(s: State, name: Name, deleteGitRepo: bool, order: seq<Name>)
    requires name in s.store && !s.store[name].deleting && WorkerOf(s, name).Idle?
    requires Dependency in s.store[name].finalizers && (deleteGitRepo ==> GitRemote in s.store[name].finalizers)
    requires s.store[name].children.Keys <= s.store.Keys && IsOrderOf(order, s.store[name].children.Keys)
    ensures var d, calls := s.store[name], [Begin(name, deleteGitRepo, true)] + LinkCalls(name, order);
            && Possible(s, calls)
            && var s' := After(s, calls);
               && WorkerOf(s', name) == Idle && LinkedBy(s', name) == d.children.Keys
               && (forall c | c in d.children :: Records(s'.store, c, name))
               && OnlyLinked(s.store, s'.store, d.children.Keys, name, d.packageRef)
  {
    var a := Begin(name, deleteGitRepo, true);
    LinkCallsGoThrough(Next(s, a), name, order);
    OneMore(s, a, LinkCalls(name, order));
  }

  lemma {:induction false} UnlinkCallsGoThrough(s: State, name: Name, order: seq<Name>)
    requires WorkerOf(s, name).Unlinking? && IsOrderOf(order, WorkerOf(s, name).left)
    ensures Possible(s, UnlinkCalls(name, order))
    ensures var s', w := After(s, UnlinkCalls(name, order)), WorkerOf(s, name);
            && WorkerOf(s', name) == Releasing(w.held - {Dependency})
            && OnlyUnlinked(s.store, s'.store, w.left, name)
    decreases |order|
  {
    if order == [] {
      OneMore(s, DropFinalizer(name), []);
      assert UnlinkCalls(name, order) == [DropFinalizer(name)] + [];
    } else {
      var a := UnlinkChild(name, order[0], true);
      RestOfOrder(order, WorkerOf(s, name).left);
      UnlinkCallsGoThrough(Next(s, a), name, order[1..]);
      OneMore(s, a, UnlinkCalls(name, order[1..]));
      UnlinkedStep(s.store, Next(s, a).store, After(s, UnlinkCalls(name, order)).store, WorkerOf(s, name).left, order[0], name);
    }
  }

  lemma UnlinkedStep(before: Store, between: Store, after: Store, left: set<Name>, child: Name, parent: Name)
    requires child in left
    requires between == WithoutParent(before, {child}, parent) ||
             (between == before && (child in before ==> before[child].parents == map[]))
    requires OnlyUnlinked(between, after, left - {child}, parent)
    ensures OnlyUnlinked(before, after, left, parent)
  {
  }

  /** No stored Deployment names the one whose finalizers were given up, and the others keep all
      that does not concern it. */
  ghost predicate Released(before: Store, after: Store, name: Name, others: set<Finalizer>)
    requires name in before
  {
    && (forall c :: !Records(after, c, name))
    && (name in after <==> !(before[name].finalizers <= others + {Dependency}))
    && (name in after ==> after[name].finalizers == before[name].finalizers - others - {Dependency})
    && forall n | n in before && n != name :: n in after && after[n] == before[n].(parents := before[n].parents - {name})
  }

  lemma NothingIsLeft(before: Store, between: Store, name: Name, others: set<Finalizer>)
    requires EntriesAreBacked(before) && name in before && before[name].deleting
    requires OnlyUnlinked(before, between, before[name].children.Keys, name)
    ensures Released(before, WithFinalizers(between, name, before[name].finalizers - {Dependency} - others), name, others)
  {
    var rest := before[name].finalizers - {Dependency} - others;
    assert rest == before[name].finalizers - others - {Dependency};
    assert rest == {} <==> before[name].finalizers <= others + {Dependency};
    forall n | n in before && n !in before[name].children ensures before[n].parents - {name} == before[n].parents {
      assert !Records(before, n, name);
    }
  }

  lemma UnlinkAndRelease(s: State, name: Name, order: seq<Name>, others: set<Finalizer>)
    requires WorkerOf(s, name).Unlinking? && IsOrderOf(order, WorkerOf(s, name).left)
    requires name in s.store && Dependency !in others
    ensures Possible(s, UnlinkCalls(name, order) + [Release(name, others, true)])
    ensures var s', w := After(s, UnlinkCalls(name, order) + [Release(name, others, true)]), WorkerOf(s, name);
            && WorkerOf(s', name) == Idle
            && exists between :: OnlyUnlinked(s.store, between, w.left, name)
                 && s'.store == WithFinalizers(between, name, w.held - {Dependency} - others)
  {
    var z := Release(name, others, true);
    UnlinkCallsGoThrough(s, name, order);
    var s' := After(s, UnlinkCalls(name, order));
    OneMore(s', z, []);
    assert [z] + [] == [z];
    PossibleCompose(s, UnlinkCalls(name, order), [z]);
    assert OnlyUnlinked(s.store, s'.store, WorkerOf(s, name).left, name);
  }

  /** A reconcile of a Deployment that is being deleted can go through too: afterwards nothing
      names it any more, and its dependency finalizer is gone, with the object itself if that
      was the last one. */
  lemma UnlinkingCanComplete(s: State, name: Name, deleteGitRepo: bool, order: seq<Name>, others: set<Finalizer>)
    requires Inv(s) && name in s.store && s.store[name].deleting && WorkerOf(s, name).Idle?
    requires Dependency in s.store[name].finalizers && Dependency !in others
    requires IsOrderOf(order, s.store[name].children.Keys)
    ensures var calls := [Begin(name, deleteGitRepo, true)] + (UnlinkCalls(name, order) + [Release(name, others, true)]);
            Possible(s, calls) && WorkerOf(After(s, calls), name) == Idle && Released(s.store, After(s, calls).store, name, others)
  {
    var d, a := s.store[name], Begin(name, deleteGitRepo, true);
    var calls := UnlinkCalls(name, order) + [Release(name, others, true)];
    UnlinkAndRelease(Next(s, a), name, order, others);
    OneMore(s, a, calls);
    var between :| OnlyUnlinked(s.store, between, d.children.Keys, name)
      && After(Next(s, a), calls).store == WithFinalizers(between, name, d.finalizers - {Dependency} - others);
    NothingIsLeft(s.store, between, name, others);
  }

  /** Without its finalizers a live Deployment first gets them, one for each reconcile. */
  lemma FinalizersAreAdded(s: State, name: Name, deleteGitRepo: bool)
    requires name in s.store && !s.store[name].deleting && WorkerOf(s, name).Idle?
    requires Dependency !in s.store[name].finalizers || (deleteGitRepo && GitRemote !in s.store[name].finalizers)
    ensures Enabled(s, Begin(name, deleteGitRepo, true))
    ensures var s', before := Next(s, Begin(name, deleteGitRepo, true)), s.store[name].finalizers;
            var added := if deleteGitRepo && GitRemote !in before then GitRemote else Dependency;
            s' == s.(store := s.store[name := s.store[name].(finalizers := before + {added})])
  {
  }

  /** The webhook's finalizers on live Deployments: those of dependencies and, if `git`, of
      repositories, and that of the catalog once a package is named. */
  ghost predicate Guarded(s: State, git: bool) {
    forall n | n in s.store && !s.store[n].deleting ::
      && Dependency in s.store[n].finalizers
      && (git ==> GitRemote in s.store[n].finalizers)
      && (s.store[n].packageRef != EMPTY_REF ==> Catalog in s.store[n].finalizers)
  }

  ghost predicate DeletesGitRepos(a: Action) {
    && (a.Create? ==> a.deleteGitRepo)
    && (a.Update? ==> a.deleteGitRepo)
  }

  lemma NextKeepsGuarded(s: State, a: Action, git: bool)
    requires WorkerFits(s, a.name) && Enabled(s, a) && Guarded(s, git) && (git ==> DeletesGitRepos(a))
    ensures Guarded(Next(s, a), git)
  {
  }

  lemma {:induction false} RunsStayGuarded(run: seq<State>, actions: seq<Action>, git: bool, i: nat)
    requires IsRun(run, actions) && i < |run|
    requires git ==> forall j | 0 <= j < |actions| :: DeletesGitRepos(actions[j])
    ensures Guarded(run[i], git)
  {
    if i > 0 {
      RunsStayGuarded(run, actions, git, i - 1);
      RunsKeepInv(run, actions, i - 1);
      assert WorkerFits(run[i - 1], actions[i - 1].name);
      NextKeepsGuarded(run[i - 1], actions[i - 1], git);
    }
  }

  /** From any state of any run, a live Deployment whose children are stored can be linked to all
      of them in one reconcile; the finalizers are there since the webhook let it in. */
  lemma LiveDeploymentsCanBeLinked(run: seq<State>, actions: seq<Action>, git: bool, i: nat, name: Name, order: seq<Name>)
    requires IsRun(run, actions) && i < |run|
    requires git ==> forall j | 0 <= j < |actions| :: DeletesGitRepos(actions[j])
    requires name in run[i].store && !run[i].store[name].deleting && WorkerOf(run[i], name).Idle?
    requires run[i].store[name].children.Keys <= run[i].store.Keys
    requires IsOrderOf(order, run[i].store[name].children.Keys)
    ensures var calls := [Begin(name, git, true)] + LinkCalls(name, order);
            && Possible(run[i], calls)
            && var s' := After(run[i], calls);
               && LinkedBy(s', name) == run[i].store[name].children.Keys
               && (forall c | c in run[i].store[name].children :: Records(s'.store, c, name))
               && OnlyLinked(run[i].store, s'.store, run[i].store[name].children.Keys, name, run[i].store[name].packageRef)
  {
    RunsStayGuarded(run, actions, git, i);
    LinkingCanComplete(run[i], name, git, order);
  }
}
