/** The isDeployed flag of a deployment package: set and cleared by the admission webhook,
    cleared by the catalog finalizer, with the stored Deployments as reference count. */
module DeployedFlags {
  import opened Deployments

  /** Deployments of a project live in the namespace of that project. */
  datatype Id = Id(project: string, name: Name)

  datatype PackageKey = PackageKey(project: string, name: string, version: string)

  type Deployed = map<Id, Deployment>

  type Flags = map<PackageKey, bool>

  datatype World = World(store: Deployed, flags: Flags)

  /** Which calls fail: getting the token, reading the package, writing it back, listing
      the Deployments, patching the Deployment. */
  datatype Faults = Faults(token: bool, read: bool, write: bool, list: bool, patch: bool)

  const NO_FAULTS := Faults(false, false, false, false, false)

  datatype Error = NoError | NotFound | CallFailed

  function KeyOf(d: Deployment): PackageKey {
    PackageKey(d.project, d.packageRef.name, d.packageRef.version)
  }

  /** The string that Deployments are indexed by. */
  function AppRef(d: Deployment): string {
    d.packageRef.name + "-" + d.packageRef.version
  }

  /** IsDeployed: another Deployment of the project has the same index string. */
  ghost predicate InUse(store: Deployed, id: Id, d: Deployment) {
    exists i :: i in store && AppRef(store[i]) == AppRef(d) && store[i].project == d.project && i.name != id.name
  }

  // ---------------------------------------------------------------------------
  // The code
  // ---------------------------------------------------------------------------

  function FlagError(flags: Flags, key: PackageKey, value: bool, f: Faults): Error {
    if f.token || f.read then CallFailed
    else if key !in flags then NotFound
    else if flags[key] != value && f.write then CallFailed
    else NoError
  }

  function FlagSet(flags: Flags, key: PackageKey, value: bool, f: Faults): Flags {
    if FlagError(flags, key, value, f) == NoError then flags[key := value] else flags
  }

  class CatalogService {
    var flags: Flags

    /** HandleIsDeployed with UpdateIsDeployed: the flag is written only when it differs. */
    method UpdateIsDeployed(key: PackageKey, value: bool, f: Faults) returns (err: Error)
      modifies this
      ensures err == FlagError(old(flags), key, value, f)
      ensures flags == FlagSet(old(flags), key, value, f)
    {
      if f.token || f.read {
        return CallFailed;
      }
      if key !in flags {
        return NotFound;
      }
      if flags[key] != value {
        if f.write {
          return CallFailed;
        }
        flags := flags[key := value];
      }
      assert flags == old(flags)[key := value];
      return NoError;
    }
  }

  method IsDeployed(store: Deployed, id: Id, d: Deployment) returns (used: bool)
    ensures used <==> InUse(store, id, d)
  {
    var todo := set i | i in store && AppRef(store[i]) == AppRef(d);
    while todo != {}
      invariant todo <= store.Keys
      invariant forall i | i in store && i !in todo ::
                  !(AppRef(store[i]) == AppRef(d) && store[i].project == d.project && i.name != id.name)
      decreases todo
    {
      var i :| i in todo;
      if store[i].project == d.project {
        if id.name != i.name {
          return true;
        }
      }
      todo := todo - {i};
    }
    return false;
  }

  ghost function CreateAdmission(w: World, d: Deployment, f: Faults): (bool, Flags) {
    if d.packageRef == EMPTY_REF then (true, w.flags)
    else (FlagError(w.flags, KeyOf(d), true, f) == NoError, FlagSet(w.flags, KeyOf(d), true, f))
  }

  /** `f` holds for setting the new flag and listing, `g` for clearing the old flag. */
  ghost function UpdateAdmission(w: World, id: Id, before: Deployment, d: Deployment, f: Faults, g: Faults): (bool, Flags) {
    if d.packageRef == EMPTY_REF then (true, w.flags)
    else if before.packageRef.name != d.packageRef.name then (false, w.flags)
    else if before.packageRef.version == d.packageRef.version then (true, w.flags)
    else
      var flags := FlagSet(w.flags, KeyOf(d), true, f);
      if FlagError(w.flags, KeyOf(d), true, f) != NoError || f.list then (false, flags)
      else if InUse(w.store, id, before) then (true, flags)
      else (FlagError(flags, KeyOf(before), false, g) == NoError, FlagSet(flags, KeyOf(before), false, g))
  }

  method ValidateCreate(catalog: CatalogService, ghost store: Deployed, d: Deployment, f: Faults) returns (admitted: bool)
    modifies catalog
    ensures (admitted, catalog.flags) == CreateAdmission(World(store, old(catalog.flags)), d, f)
  {
    if d.packageRef == EMPTY_REF {
      return true;
    }
    var err := catalog.UpdateIsDeployed(KeyOf(d), true, f);
    return err == NoError;
  }

  method ValidateUpdate(catalog: CatalogService, store: Deployed, id: Id, before: Deployment, d: Deployment,
                        f: Faults, g: Faults) returns (admitted: bool)
    modifies catalog
    ensures (admitted, catalog.flags) == UpdateAdmission(World(store, old(catalog.flags)), id, before, d, f, g)
  {
    if d.packageRef == EMPTY_REF {
      return true;
    }
    if before.packageRef.name != d.packageRef.name {
      return false;
    }
    if before.packageRef.version == d.packageRef.version {
      return true;
    }
    var err := catalog.UpdateIsDeployed(KeyOf(d), true, f);
    if err != NoError || f.list {
      return false;
    }
    var used := IsDeployed(store, id, before);
    if !used {
      err := catalog.UpdateIsDeployed(KeyOf(before), false, g);
      return err == NoError;
    }
    return true;
  }

  /** Whether handleFinalizerCatalog drops its finalizer, and the flags it leaves. */
  ghost function CatalogPhase(w: World, id: Id, d: Deployment, f: Faults): (bool, Flags) {
    if Catalog !in d.finalizers || f.list then (false, w.flags)
    else if InUse(w.store, id, d) then (true, w.flags)
    else (FlagError(w.flags, KeyOf(d), false, f) != CallFailed, FlagSet(w.flags, KeyOf(d), false, f))
  }

  method HandleFinalizerCatalog(catalog: CatalogService, store: Deployed, id: Id, d: Deployment, f: Faults)
    returns (drop: bool)
    modifies catalog
    ensures (drop, catalog.flags) == CatalogPhase(World(store, old(catalog.flags)), id, d, f)
  {
    if Catalog !in d.finalizers {
      return false;
    }
    var err := if f.list then CallFailed else NoError;
    if err == NoError {
      var used := IsDeployed(store, id, d);
      if !used {
        err := catalog.UpdateIsDeployed(KeyOf(d), false, f);
      }
    }
    return err != CallFailed;
  }

  // ---------------------------------------------------------------------------
  // When requests are admitted, and what becomes of the flags
  // ---------------------------------------------------------------------------

  /** A create that names a package is admitted exactly if the catalog can be asked, has the
      package, and has its flag set or can be written; then the flag is set.  No other flag
      changes, and a rejected create changes none. */
  lemma CreateIsAdmittedIff(w: World, d: Deployment, f: Faults)
    requires d.packageRef != EMPTY_REF
    ensures var key := PackageKey(d.project, d.packageRef.name, d.packageRef.version);
            var (admitted, flags) := CreateAdmission(w, d, f);
            && (admitted <==> !f.token && !f.read && key in w.flags && (w.flags[key] || !f.write))
            && (admitted ==> key in flags && flags[key] && forall k | k != key :: (k in flags <==> k in w.flags))
            && (admitted ==> forall k | k in w.flags && k != key :: flags[k] == w.flags[k])
            && (!admitted ==> flags == w.flags)
  {
  }

  /** The package that an update leaves is used by another Deployment of the project, as far as
      index strings tell. */
  ghost predicate UsedByAnother(store: Deployed, id: Id, before: Deployment) {
    exists i :: i in store && i.name != id.name && store[i].project == before.project
      && store[i].packageRef.name + "-" + store[i].packageRef.version == before.packageRef.name + "-" + before.packageRef.version
  }

  /** An update to another version is admitted exactly if the flag of the new one can be set,
      the Deployments can be listed, and the flag of the old one is still needed or can be
      cleared.  An update to another name never is, and any other update always is. */
  lemma UpdateIsAdmittedIff(w: World, id: Id, before: Deployment, d: Deployment, f: Faults, g: Faults)
    requires d.packageRef != EMPTY_REF && d.project == before.project
    ensures var p, q := before.packageRef, d.packageRef;
            var old_, new_ := PackageKey(d.project, p.name, p.version), PackageKey(d.project, q.name, q.version);
            var canSet := !f.token && !f.read && new_ in w.flags && (w.flags[new_] || !f.write);
            var canClear := !g.token && !g.read && old_ in w.flags && (!w.flags[old_] || !g.write);
            UpdateAdmission(w, id, before, d, f, g).0 <==>
              p.name == q.name && (p.version == q.version || (canSet && !f.list && (UsedByAnother(w.store, id, before) || canClear)))
  {
    assert InUse(w.store, id, before) <==> UsedByAnother(w.store, id, before);
  }

  /** What an update does to the flags: an admitted one to another version leaves the new flag set
      and the old one cleared unless still needed; any other leaves all as they were, except
      that a rejected one may have set the new flag before it failed. */
  lemma UpdateSetsAndClears(w: World, id: Id, before: Deployment, d: Deployment, f: Faults, g: Faults)
    requires d.packageRef != EMPTY_REF && d.project == before.project
    ensures var p, q := before.packageRef, d.packageRef;
            var old_, new_ := PackageKey(d.project, p.name, p.version), PackageKey(d.project, q.name, q.version);
            var (admitted, flags) := UpdateAdmission(w, id, before, d, f, g);
            && flags.Keys == w.flags.Keys
            && (forall k | k in flags && k != old_ && k != new_ :: flags[k] == w.flags[k])
            && (p.name != q.name || p.version == q.version ==> flags == w.flags)
            && (p.version != q.version && admitted ==>
                  && new_ in flags && flags[new_]
                  && (old_ in flags ==> flags[old_] == if UsedByAnother(w.store, id, before) then w.flags[old_] else false))
            && (!admitted ==> flags == w.flags || (new_ in w.flags && flags == w.flags[new_ := true]))
  {
    assert InUse(w.store, id, before) <==> UsedByAnother(w.store, id, before);
  }

  /** The catalog finalizer goes exactly if the Deployments can be listed and the flag is still
      needed, gone with its package, or can be cleared; then it is cleared unless still needed. */
  lemma CatalogFinalizerGoesIff(w: World, id: Id, d: Deployment, f: Faults)
    requires Catalog in d.finalizers
    ensures var key := PackageKey(d.project, d.packageRef.name, d.packageRef.version);
            var (drop, flags) := CatalogPhase(w, id, d, f);
            && (drop <==>
                  !f.list && (UsedByAnother(w.store, id, d)
                              || (!f.token && !f.read && (key in w.flags && w.flags[key] ==> !f.write))))
            && flags.Keys == w.flags.Keys
            && (forall k | k in flags && k != key :: flags[k] == w.flags[k])
            && (key in flags ==> flags[key] == if drop && !UsedByAnother(w.store, id, d) then false else w.flags[key])
  {
    assert InUse(w.store, id, d) <==> UsedByAnother(w.store, id, d);
  }

  // ---------------------------------------------------------------------------
  // Steps: a request with its admission, or a reconcile, or the catalog dropping or gaining a package
  // ---------------------------------------------------------------------------

  datatype Step =
    | Create(id: Id, d: Deployment, deleteGitRepo: bool, f: Faults)
    | Update(id: Id, d: Deployment, deleteGitRepo: bool, f: Faults, g: Faults)
    | Delete(id: Id)
    | Finalize(id: Id, others: set<Finalizer>, f: Faults)
    | RemovePackage(key: PackageKey)
    | AddPackage(key: PackageKey)

  /** Requests keep the project label; a Deployment marked for deletion is not updated. */
  ghost predicate Enabled(w: World, s: Step) {
    match s
    case Create(id, d, _, _) => id !in w.store && d.project == id.project && !d.deleting
    case Update(id, d, _, _, _) =>
      id in w.store && !w.store[id].deleting && d.project == id.project && !d.deleting
    case Delete(id) => id in w.store
    case Finalize(id, others, _) => id in w.store && w.store[id].deleting && Catalog !in others
    case RemovePackage(_) => true
    case AddPackage(key) => key !in w.flags
  }

  ghost function Next(w: World, s: Step): World
    requires Enabled(w, s)
  {
    match s
    case Create(id, d, deleteGitRepo, f) =>
      var r := CreateAdmission(w, d, f);
      World(if r.0 then w.store[id := WithDefaults(d, deleteGitRepo)] else w.store, r.1)
    case Update(id, d, deleteGitRepo, f, g) =>
      var r := UpdateAdmission(w, id, w.store[id], d, f, g);
      World(if r.0 then w.store[id := WithDefaults(d, deleteGitRepo)] else w.store, r.1)
    case Delete(id) =>
      World(if w.store[id].finalizers == {} then w.store - {id} else w.store[id := w.store[id].(deleting := true)], w.flags)
    case Finalize(id, others, f) =>
      var r := CatalogPhase(w, id, w.store[id], f);
      var rest := w.store[id].finalizers - others - (if r.0 then {Catalog} else {});
      World(if f.patch then w.store
            else if rest == {} then w.store - {id}
            else w.store[id := w.store[id].(finalizers := rest)], r.1)
    case RemovePackage(key) => w.(flags := w.flags - {key})
    case AddPackage(key) => w.(flags := w.flags[key := false])
  }

  ghost predicate IsRun(run: seq<World>, steps: seq<Step>) {
    && |run| == |steps| + 1
    && run[0].store == map[]
    && forall i | 0 <= i < |steps| :: Enabled(run[i], steps[i]) && run[i + 1] == Next(run[i], steps[i])
  }

  // ---------------------------------------------------------------------------
  // Safety: what is deployed is flagged
  // ---------------------------------------------------------------------------

  ghost predicate Projects(store: Deployed) {
    forall i | i in store :: store[i].project == i.project
  }

  ghost predicate Flagged(w: World, d: Deployment) {
    KeyOf(d) in w.flags ==> w.flags[KeyOf(d)]
  }

  predicate IsLive(store: Deployed, i: Id) {
    i in store && !store[i].deleting && store[i].packageRef != EMPTY_REF
  }

  ghost predicate LiveAreFlagged(w: World) {
    Projects(w.store) && forall i | IsLive(w.store, i) :: Flagged(w, w.store[i])
  }

  /** The package comes to the catalog while a live Deployment refers to it. */
  ghost predicate ComesUnderLive(w: World, s: Step) {
    s.AddPackage? && exists i :: IsLive(w.store, i) && KeyOf(w.store[i]) == s.key
  }

  /** An empty reference becomes one that has no version either, but a profile or namespaces:
      the versions are equal, so the flag is not set. */
  ghost predicate EscapesUpdate(w: World, s: Step)
    requires Enabled(w, s)
  {
    && s.Update? && w.store[s.id].packageRef == EMPTY_REF && s.d.packageRef != EMPTY_REF
    && s.d.packageRef.name == "" && s.d.packageRef.version == ""
    && KeyOf(s.d) in w.flags && !w.flags[KeyOf(s.d)]
  }

  lemma SharedKeyIsInUse(store: Deployed, id: Id, d: Deployment, i: Id)
    requires Projects(store) && d.project == id.project && i in store && i != id
    requires KeyOf(store[i]) == KeyOf(d)
    ensures InUse(store, id, d)
  {
    assert AppRef(store[i]) == AppRef(d) && i.name != id.name;
  }

  /** The store after an admitted or a rejected update. */
  lemma UpdateStores(w: World, s: Step)
    requires Enabled(w, s) && s.Update?
    ensures var r := UpdateAdmission(w, s.id, w.store[s.id], s.d, s.f, s.g);
            && Next(w, s).flags == r.1
            && Next(w, s).store.Keys == w.store.Keys
            && (forall i | i in w.store && i != s.id :: Next(w, s).store[i] == w.store[i])
            && (if r.0 then Next(w, s).store[s.id].(finalizers := {}) == s.d.(finalizers := {})
                else Next(w, s).store[s.id] == w.store[s.id])
  {
  }

  lemma UpdateKeepsOthersFlagged(w: World, s: Step, i: Id)
    requires Projects(w.store) && Enabled(w, s) && s.Update? && i in w.store && i != s.id && Flagged(w, w.store[i])
    ensures Flagged(Next(w, s), w.store[i])
  {
    UpdateStores(w, s);
    if KeyOf(w.store[i]) == KeyOf(w.store[s.id]) {
      SharedKeyIsInUse(w.store, s.id, w.store[s.id], i);
    }
  }

  lemma UpdateKeepsOwnFlagIff(w: World, s: Step)
    requires Projects(w.store) && Enabled(w, s) && s.Update?
    requires w.store[s.id].packageRef != EMPTY_REF ==> Flagged(w, w.store[s.id])
    ensures IsLive(Next(w, s).store, s.id) && !Flagged(Next(w, s), Next(w, s).store[s.id]) <==> EscapesUpdate(w, s)
  {
    UpdateStores(w, s);
    var before := w.store[s.id];
    if before.packageRef.version != s.d.packageRef.version {
      assert KeyOf(before) != KeyOf(s.d);
    }
  }

  lemma OtherStepsKeepFlags(w: World, s: Step, i: Id)
    requires LiveAreFlagged(w) && Enabled(w, s) && !s.Update? && IsLive(Next(w, s).store, i)
    ensures Flagged(Next(w, s), Next(w, s).store[i]) <==> !(s.AddPackage? && KeyOf(w.store[i]) == s.key)
  {
    if s.Finalize? && i != s.id && KeyOf(w.store[i]) == KeyOf(w.store[s.id]) {
      SharedKeyIsInUse(w.store, s.id, w.store[s.id], i);
    }
  }

  /** Whichever calls fail and whatever index strings collide: a step leaves a live Deployment
      without the flag of its package exactly in the two cases that can be seen before it. */
  lemma NextKeepsFlagsIff(w: World, s: Step)
    requires LiveAreFlagged(w) && Enabled(w, s)
    ensures LiveAreFlagged(Next(w, s)) <==> !EscapesUpdate(w, s) && !ComesUnderLive(w, s)
  {
    var w' := Next(w, s);
    if s.Update? {
      UpdateStores(w, s);
      UpdateKeepsOwnFlagIff(w, s);
      forall i | IsLive(w'.store, i) && i != s.id ensures Flagged(w', w'.store[i]) {
        UpdateKeepsOthersFlagged(w, s, i);
      }
    } else {
      forall i | IsLive(w'.store, i)
        ensures Flagged(w', w'.store[i]) <==> !(s.AddPackage? && KeyOf(w.store[i]) == s.key)
      {
        OtherStepsKeepFlags(w, s, i);
      }
    }
  }

  lemma {:induction false} UnescapedRunsStayFlagged(run: seq<World>, steps: seq<Step>, i: nat)
    requires IsRun(run, steps) && i < |run|
    requires forall j | 0 <= j < i :: !EscapesUpdate(run[j], steps[j]) && !ComesUnderLive(run[j], steps[j])
    ensures LiveAreFlagged(run[i])
  {
    if i > 0 {
      UnescapedRunsStayFlagged(run, steps, i - 1);
      NextKeepsFlagsIff(run[i - 1], steps[i - 1]);
    }
  }

  /** A package has a name or a version. */
  ghost predicate NoNameless(flags: Flags) {
    forall key | key in flags :: key.name != "" || key.version != ""
  }

  /** In every reachable state, with failing calls and colliding index strings: each stored
      Deployment that is not marked for deletion and whose reference is not empty has the flag
      of its package set, if the catalog has the package. The catalog never holds a package
      without name and version, and gains none that a live Deployment refers to already. */
  lemma {:induction false} DeployedPackagesAreFlagged(run: seq<World>, steps: seq<Step>, i: nat)
    requires IsRun(run, steps) && i < |run|
    requires forall j | 0 <= j < |run| :: NoNameless(run[j].flags)
    requires forall j | 0 <= j < |steps| :: !ComesUnderLive(run[j], steps[j])
    ensures LiveAreFlagged(run[i])
  {
    forall j | 0 <= j < i ensures !EscapesUpdate(run[j], steps[j]) {
      assert NoNameless(run[j].flags);
    }
    UnescapedRunsStayFlagged(run, steps, i);
  }

  /** The reference names a package, not just a profile or namespaces. */
  predicate NamesPackage(d: Deployment) {
    d.packageRef.name != "" || d.packageRef.version != ""
  }

  ghost predicate NamedAreFlagged(w: World) {
    Projects(w.store) && forall i | IsLive(w.store, i) && NamesPackage(w.store[i]) :: Flagged(w, w.store[i])
  }

  lemma NextKeepsNamedFlags(w: World, s: Step)
    requires NamedAreFlagged(w) && Enabled(w, s) && !ComesUnderLive(w, s)
    ensures NamedAreFlagged(Next(w, s))
  {
    var w' := Next(w, s);
    forall i | IsLive(w'.store, i) && NamesPackage(w'.store[i]) ensures Flagged(w', w'.store[i]) {
      if s.Update? {
        UpdateStores(w, s);
        if i == s.id {
          UpdateKeepsNamedFlag(w, s);
        } else {
          UpdateKeepsOthersFlagged(w, s, i);
        }
      } else if s.Finalize? && i != s.id && KeyOf(w.store[i]) == KeyOf(w.store[s.id]) {
        SharedKeyIsInUse(w.store, s.id, w.store[s.id], i);
      }
    }
  }

  lemma UpdateKeepsNamedFlag(w: World, s: Step)
    requires Projects(w.store) && Enabled(w, s) && s.Update?
    requires NamesPackage(w.store[s.id]) ==> Flagged(w, w.store[s.id])
    requires NamesPackage(Next(w, s).store[s.id])
    ensures Flagged(Next(w, s), Next(w, s).store[s.id])
  {
    UpdateStores(w, s);
    if w.store[s.id].packageRef.version != s.d.packageRef.version {
      assert KeyOf(w.store[s.id]) != KeyOf(s.d);
    }
  }

  /** Over any catalog, one with nameless packages included, this holds of every live
      Deployment that names a package. */
  lemma {:induction false} NamedPackagesAreFlagged(run: seq<World>, steps: seq<Step>, i: nat)
    requires IsRun(run, steps) && i < |run|
    requires forall j | 0 <= j < |steps| :: !ComesUnderLive(run[j], steps[j])
    ensures NamedAreFlagged(run[i])
  {
    if i > 0 {
      NamedPackagesAreFlagged(run, steps, i - 1);
      NextKeepsNamedFlags(run[i - 1], steps[i - 1]);
    }
  }

  /** Such a run, over a catalog that has a package without name and version: created without a
      reference, then given one with a profile only. */
  lemma ProfileOnlyReferenceEscapes() returns (run: seq<World>, steps: seq<Step>, id: Id)
    ensures IsRun(run, steps) && |run| == 3
    ensures IsLive(run[2].store, id) && !Flagged(run[2], run[2].store[id])
  {
    id := Id("p", "d");
    var d := Deployment("p", EMPTY_REF, map[], map[], {}, false);
    var d' := d.(packageRef := PackageRef("", "", "profile", false, []));
    var w := World(map[], map[PackageKey("p", "", "") := false]);
    steps := [Create(id, d, false, NO_FAULTS), Update(id, d', false, NO_FAULTS, NO_FAULTS)];
    var w1 := Next(w, steps[0]);
    run := [w, w1, Next(w1, steps[1])];
  }

  // ---------------------------------------------------------------------------
  // No leak: what is flagged is deployed
  // ---------------------------------------------------------------------------

  ghost predicate IsDeployedSomewhere(store: Deployed, key: PackageKey) {
    exists i :: i in store && KeyOf(store[i]) == key
  }

  ghost predicate FlaggedAreDeployed(w: World) {
    Projects(w.store) && forall key | IsFlagged(w.flags, key) :: IsDeployedSomewhere(w.store, key)
  }

  predicate IsFlagged(flags: Flags, key: PackageKey) {
    key in flags && flags[key]
  }

  /** Only the Deployment `id` keeps the flag of its package justified. */
  ghost predicate IsLastOf(w: World, id: Id)
    requires id in w.store
  {
    IsFlagged(w.flags, KeyOf(w.store[id])) && forall i | i in w.store && i != id :: KeyOf(w.store[i]) != KeyOf(w.store[id])
  }

  /** The object goes although its catalog phase did not clear the flag: that phase gave its
      finalizer up in an earlier pass that left others, or took a colliding index string for
      another user. */
  ghost predicate LeaksOnFinalize(w: World, id: Id, others: set<Finalizer>, f: Faults)
    requires id in w.store
  {
    var d := w.store[id];
    && !f.patch && IsLastOf(w, id) && d.finalizers <= others + {Catalog}
    && (Catalog !in d.finalizers || (!f.list && InUse(w.store, id, d)))
  }

  /** The reference is emptied, or the old flag is kept for a colliding index string, or the
      update is rejected after the new flag was set. */
  ghost predicate LeaksOnUpdate(w: World, id: Id, d: Deployment, f: Faults, g: Faults)
    requires id in w.store
  {
    var before := w.store[id];
    if d.packageRef == EMPTY_REF then IsLastOf(w, id) && KeyOf(d) != KeyOf(before)
    else
      && before.packageRef.name == d.packageRef.name && before.packageRef.version != d.packageRef.version
      && FlagError(w.flags, KeyOf(d), true, f) == NoError
      && (if !f.list && InUse(w.store, id, before) then IsLastOf(w, id)
          else
            && !IsDeployedSomewhere(w.store, KeyOf(d))
            && (f.list || FlagError(w.flags, KeyOf(before), false, g) != NoError))
  }

  /** Exactly when a step leaves a flag set without a Deployment, to be seen before the step. */
  ghost predicate Leaks(w: World, s: Step)
    requires Enabled(w, s)
  {
    match s
    case Update(id, d, _, f, g) => LeaksOnUpdate(w, id, d, f, g)
    case Delete(id) => w.store[id].finalizers == {} && IsLastOf(w, id)
    case Finalize(id, others, f) => LeaksOnFinalize(w, id, others, f)
    case _ => false
  }

  /** What a step does not touch stays deployed. */
  lemma StillDeployed(store: Deployed, store': Deployed, id: Id, key: PackageKey)
    requires forall i | i in store && i != id :: i in store' && store'[i] == store[i]
    requires exists i :: i in store && KeyOf(store[i]) == key && (i != id || (id in store' && KeyOf(store'[id]) == key))
    ensures IsDeployedSomewhere(store', key)
  {
    var i :| i in store && KeyOf(store[i]) == key && (i != id || (id in store' && KeyOf(store'[id]) == key));
    assert KeyOf(store'[i]) == key;
  }

  /** Taking the last user of a flagged package away, or to another package, is what leaks. */
  lemma ChangeLeaksIff(w: World, id: Id, w': World)
    requires FlaggedAreDeployed(w) && id in w.store && Projects(w'.store)
    requires w'.store.Keys <= w.store.Keys && forall i | i in w.store && i != id :: i in w'.store && w'.store[i] == w.store[i]
    requires forall key | key != KeyOf(w.store[id]) && IsFlagged(w'.flags, key) ::
               IsFlagged(w.flags, key) || (id in w'.store && KeyOf(w'.store[id]) == key)
    requires IsFlagged(w'.flags, KeyOf(w.store[id])) ==> IsFlagged(w.flags, KeyOf(w.store[id]))
    ensures FlaggedAreDeployed(w') <==>
            !(&& IsFlagged(w'.flags, KeyOf(w.store[id])) && IsLastOf(w, id)
              && (id in w'.store ==> KeyOf(w'.store[id]) != KeyOf(w.store[id])))
  {
    var gone := KeyOf(w.store[id]);
    forall key | IsFlagged(w'.flags, key) && key != gone ensures IsDeployedSomewhere(w'.store, key) {
      if !(id in w'.store && KeyOf(w'.store[id]) == key) {
        assert IsDeployedSomewhere(w.store, key);
        StillDeployed(w.store, w'.store, id, key);
      }
    }
    if id in w'.store && KeyOf(w'.store[id]) == gone {
      assert IsDeployedSomewhere(w'.store, gone);
    } else if IsFlagged(w'.flags, gone) {
      if IsLastOf(w, id) {
        assert forall i | i in w'.store :: KeyOf(w'.store[i]) != gone;
        assert !IsDeployedSomewhere(w'.store, gone);
      } else {
        StillDeployed(w.store, w'.store, id, gone);
      }
    }
  }

  lemma FinalizeLeaksIff(w: World, s: Step)
    requires FlaggedAreDeployed(w) && Enabled(w, s) && s.Finalize?
    ensures FlaggedAreDeployed(Next(w, s)) <==> !LeaksOnFinalize(w, s.id, s.others, s.f)
  {
    var d, r := w.store[s.id], CatalogPhase(w, s.id, w.store[s.id], s.f);
    var rest := d.finalizers - s.others - (if r.0 then {Catalog} else {});
    assert rest == {} <==> d.finalizers <= s.others + {Catalog} && (Catalog in d.finalizers ==> r.0) by {
      assert Catalog in d.finalizers && !r.0 ==> Catalog in rest;
    }
    ChangeLeaksIff(w, s.id, Next(w, s));
    assert s.id in Next(w, s).store <==> s.f.patch || rest != {};
    assert s.id in Next(w, s).store ==> KeyOf(Next(w, s).store[s.id]) == KeyOf(d);
  }

  lemma RejectedUpdateLeaksIff(w: World, s: Step)
    requires FlaggedAreDeployed(w) && Enabled(w, s) && s.Update?
    requires !UpdateAdmission(w, s.id, w.store[s.id], s.d, s.f, s.g).0
    ensures FlaggedAreDeployed(Next(w, s)) <==> !LeaksOnUpdate(w, s.id, s.d, s.f, s.g)
  {
    UpdateStores(w, s);
    var w', before, key := Next(w, s), w.store[s.id], KeyOf(s.d);
    assert w'.store == w.store;
    if before.packageRef.name != s.d.packageRef.name || FlagError(w.flags, key, true, s.f) != NoError {
      assert w'.flags == w.flags;
    } else {
      assert before.packageRef.version != s.d.packageRef.version && KeyOf(before) != key;
      assert w'.flags == w.flags[key := true];
      assert IsFlagged(w'.flags, key) && forall k | k != key :: IsFlagged(w'.flags, k) <==> IsFlagged(w.flags, k);
    }
  }

  lemma AdmittedUpdateLeaksIff(w: World, s: Step)
    requires FlaggedAreDeployed(w) && Enabled(w, s) && s.Update?
    requires UpdateAdmission(w, s.id, w.store[s.id], s.d, s.f, s.g).0
    ensures FlaggedAreDeployed(Next(w, s)) <==> !LeaksOnUpdate(w, s.id, s.d, s.f, s.g)
  {
    UpdateStores(w, s);
    ChangeLeaksIff(w, s.id, Next(w, s));
  }

  /** Where every flagged package has a Deployment, a step changes that exactly if it leaks. */
  lemma StepLeaksIff(w: World, s: Step)
    requires FlaggedAreDeployed(w) && Enabled(w, s)
    ensures FlaggedAreDeployed(Next(w, s)) <==> !Leaks(w, s)
  {
    var w' := Next(w, s);
    match s
    case Create(id, d, _, _) =>
      forall key | IsFlagged(w'.flags, key) ensures IsDeployedSomewhere(w'.store, key) {
        if key == KeyOf(d) && id in w'.store {
          assert KeyOf(w'.store[id]) == key;
        } else {
          assert IsDeployedSomewhere(w.store, key);
          StillDeployed(w.store, w'.store, id, key);
        }
      }
    case Update(id, d, _, f, g) =>
      if UpdateAdmission(w, id, w.store[id], d, f, g).0 {
        AdmittedUpdateLeaksIff(w, s);
      } else {
        RejectedUpdateLeaksIff(w, s);
      }
    case Delete(id) => ChangeLeaksIff(w, id, w');
    case Finalize(_, _, _) => FinalizeLeaksIff(w, s);
    case RemovePackage(_) =>
    case AddPackage(_) =>
  }

  /** In a run whose steps do not leak, every flagged package is used by a stored Deployment in
      every state; the first step that leaks ends that. */
  lemma {:induction false} FlaggedPackagesAreDeployed(run: seq<World>, steps: seq<Step>, i: nat)
    requires IsRun(run, steps) && i < |run|
    requires forall key | key in run[0].flags :: !run[0].flags[key]
    requires forall j | 0 <= j < i - 1 :: !Leaks(run[j], steps[j])
    ensures i > 0 ==> (FlaggedAreDeployed(run[i]) <==> !Leaks(run[i - 1], steps[i - 1]))
    ensures i == 0 ==> FlaggedAreDeployed(run[i])
  {
    if i > 0 {
      FlaggedPackagesAreDeployed(run, steps, i - 1);
      StepLeaksIff(run[i - 1], steps[i - 1]);
    }
  }

  // ---------------------------------------------------------------------------
  // Runs without failures
  // ---------------------------------------------------------------------------

  /** Within a project, index strings tell packages apart. */
  ghost predicate NoCollision(store: Deployed, d: Deployment) {
    forall i | i in store && store[i].project == d.project && AppRef(store[i]) == AppRef(d) ::
      KeyOf(store[i]) == KeyOf(d)
  }

  /** Every call of the step succeeds (the package that an update leaves is still in the
      catalog), a reference is given, and a reconcile of a Deployment marked for deletion gets
      through all its phases. */
  ghost predicate Smooth(w: World, s: Step)
    requires Enabled(w, s)
  {
    match s
    case Create(_, d, _, f) => f == NO_FAULTS && d.packageRef != EMPTY_REF
    case Update(id, d, _, f, g) =>
      f == NO_FAULTS && g == NO_FAULTS && d.packageRef != EMPTY_REF && NoCollision(w.store, w.store[id])
      && KeyOf(w.store[id]) in w.flags
    case Finalize(id, others, f) =>
      f == NO_FAULTS && w.store[id].finalizers <= others + {Catalog} && NoCollision(w.store, w.store[id])
    case _ => true
  }

  ghost predicate KeepCatalogFinalizers(store: Deployed) {
    Projects(store) && forall i | i in store :: Catalog in store[i].finalizers
  }

  lemma SmoothStepDoesNotLeak(w: World, s: Step)
    requires KeepCatalogFinalizers(w.store) && Enabled(w, s) && Smooth(w, s)
    ensures !Leaks(w, s) && KeepCatalogFinalizers(Next(w, s).store)
  {
  }

  /** Without failed calls, colliding index strings and empty references no step of a run
      leaks. */
  lemma {:induction false} SmoothRunsDoNotLeak(run: seq<World>, steps: seq<Step>, i: nat)
    requires IsRun(run, steps) && i < |run|
    requires forall key | key in run[0].flags :: !run[0].flags[key]
    requires forall j | 0 <= j < |steps| :: Smooth(run[j], steps[j])
    ensures KeepCatalogFinalizers(run[i].store) && FlaggedAreDeployed(run[i])
  {
    if i > 0 {
      SmoothRunsDoNotLeak(run, steps, i - 1);
      SmoothStepDoesNotLeak(run[i - 1], steps[i - 1]);
      StepLeaksIff(run[i - 1], steps[i - 1]);
    }
  }

  /** Index strings cannot collide as long as versions contain no dash. */
  lemma {:induction false} AppRefTellsPackagesApart(name: string, version: string, name': string, version': string)
    requires name + "-" + version == name' + "-" + version'
    requires '-' !in version && '-' !in version'
    ensures name == name' && version == version'
  {
    var s, s' := name + "-" + version, name' + "-" + version';
    assert s[|name|] == '-' && s'[|name'|] == '-';
    assert forall k | |name| < k < |s| :: s[k] == version[k - |name| - 1];
    assert forall k | |name'| < k < |s'| :: s'[k] == version'[k - |name'| - 1];
    assert name == s[..|name|] && name' == s'[..|name'|];
    assert version == s[|name| + 1..] && version' == s'[|name'| + 1..];
  }

  /** With a failed phase the flag can stay set for good: the first of two Deployments of a
      package gives up its catalog finalizer but is kept by another one; it still counts
      as a user when the second one goes, and is not asked again when it goes itself. */
  lemma FailedPhaseLeaksTheFlag() returns (run: seq<World>, steps: seq<Step>, key: PackageKey)
    ensures IsRun(run, steps)
    ensures key in run[|run| - 1].flags && run[|run| - 1].flags[key] && run[|run| - 1].store == map[]
  {
    var a, b := Id("p", "a"), Id("p", "b");
    var d := Deployment("p", PackageRef("pkg", "1", "", false, []), map[], map[], {}, false);
    key := KeyOf(d);
    var all := {GitRemote, Dependency};
    steps := [Create(a, d, true, NO_FAULTS), Create(b, d, true, NO_FAULTS), Delete(a), Delete(b),
              Finalize(a, {Dependency}, NO_FAULTS), Finalize(b, all, NO_FAULTS), Finalize(a, all, NO_FAULTS)];
    var s := WithDefaults(d, true);
    var del := s.(deleting := true);
    var left := del.(finalizers := {GitRemote});
    var set_ := map[key := true];
    run := [World(map[], map[key := false]), World(map[a := s], set_), World(map[a := s, b := s], set_),
            World(map[a := del, b := s], set_), World(map[a := del, b := del], set_),
            World(map[a := left, b := del], set_), World(map[a := left], set_), World(map[], set_)];
    assert InUse(run[4].store, a, del) by { assert run[4].store[b] == del; }
    assert InUse(run[5].store, b, del) by { assert run[5].store[a] == left; }
    assert del.finalizers - {Dependency} - {Catalog} == {GitRemote};
    assert del.finalizers - all - {Catalog} == {};
    assert left.finalizers - all == {};
    assert Next(run[0], steps[0]) == run[1];
    assert Next(run[1], steps[1]) == run[2];
    assert Next(run[2], steps[2]) == run[3];
    assert Next(run[3], steps[3]) == run[4];
    assert Next(run[4], steps[4]) == run[5];
    assert Next(run[5], steps[5]) == run[6];
    assert Next(run[6], steps[6]) == run[7];
  }
}
