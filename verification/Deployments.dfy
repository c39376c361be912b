/** The Deployment object as the API server stores it, cut down to the fields on which
    the control plane decides something. */
module Deployments {

  type Name = string

  datatype Option<+T> = None | Some(value: T)

  /** Spec.DeploymentPackageRef. */
  datatype PackageRef = PackageRef(
    name: string,
    version: string,
    profile: string,
    forbidsMultiple: bool,
    namespaces: seq<string>)

  const EMPTY_REF := PackageRef("", "", "", false, [])

  datatype DependentRef = DependentRef(packageRef: PackageRef, deploymentName: Name)

  datatype Finalizer = GitRemote | Dependency | Catalog

  /** `children` is Spec.ChildDeploymentList and `parents` is Status.ParentDeploymentList;
      `deleting` says that the deletion timestamp is set. */
  datatype Deployment = Deployment(
    project: string,
    packageRef: PackageRef,
    children: map<Name, DependentRef>,
    parents: map<Name, DependentRef>,
    finalizers: set<Finalizer>,
    deleting: bool)

  type Store = map<Name, Deployment>

  function Lookup(store: Store, name: Name): Option<Deployment> {
    if name in store then Some(store[name]) else None
  }

  function Children(store: Store, name: Name): set<Name> {
    if name in store then store[name].children.Keys else {}
  }

  /** What the API server does with a delete call for each of `names`: an object without
      finalizers disappears, any other one is only marked. */
  function DeleteAll(store: Store, names: set<Name>): Store {
    map n | n in store && !(n in names && store[n].finalizers == {}) ::
      if n in names then store[n].(deleting := true) else store[n]
  }

  /** The mutating webhook: finalizers that a create or update request leaves out are put
      back before the object is stored. */
  function WithDefaults(d: Deployment, deleteGitRepo: bool): Deployment {
    if d.deleting then d
    else d.(finalizers := d.finalizers
                          + (if deleteGitRepo then {GitRemote} else {})
                          + {Dependency}
                          + (if d.packageRef != EMPTY_REF then {Catalog} else {}))
  }
}
