# Control plane proofs for App Deployment Manager

The control plane of App Deployment Manager is a northbound API, an admission webhook and two
reconcilers. They share one store of Deployment objects, a catalog of deployment packages and
the GitRepo objects of Fleet, and no part of them is safe by itself. This project models their
state-changing code and proves what holds of all of it together, over every run and with calls
that fail at any point. It also covers the session counters of the VNC proxy, the cookies that
carry a token from a page to the proxies, and the filter, sort and paginate pipeline of the
list calls.

Code that updates objects is modelled by classes and methods with loops in the order of the
original; each method is proved against a specification function or relation, and the main
results are lemmas about those. A map that Go visits in unspecified order is visited in an
arbitrary order here. Calls of the API server, of the catalog and of Fleet are atomic steps on
maps, and which of them fail is a parameter.

| module | what it models |
|---|---|
| `Deployments` | the stored Deployment object, deletion by the API server, defaulting by the webhook |
| `DeleteTraversal` | the bounded closure and the validation behind delete requests |
| `LinkProtocol`, `DependencyReconciler` | parent lists, the dependency finalizer, and the reconciler loops as runs of the protocol |
| `DependencyGraph` | the recursion that builds dependent Deployments from the catalog |
| `DeployedFlags` | the isDeployed flag: admission, catalog, finalizer |
| `AutoScalingTargets`, `TargetedClusters` | target lists of both deployment types, and their propagation to children |
| `OverrideValues`, `OverrideKeys`, `Strings` | masking, unmasking, key enumeration with pruning |
| `Conditions`, `ClusterStatus`, `DeploymentStatus`, `ClusterCounts` | bundles to clusters to Deployments to project counters |
| `GitRepos` | the convergent loop over the GitRepos of a Deployment |
| `SessionCounters` | counters and interleaved VNC sessions |
| `TokenCookies` | splitting a token into cookies and reassembling it |
| `DataSelector` | filter, sort and paginate |

Verify with `dafny verify dfyconfig.toml`.

## What the proofs show about the code

- An accepted delete request leaves no live Deployment behind that lists a deleted one, in
  every settled state of every run: each live Deployment has linked all its children, while
  others may be on their way out and have taken their entries back already. Such states are
  within reach: from every state of every run, one reconcile without failures links a live
  Deployment to all its stored children (`LiveDeploymentsCanBeLinked`).
- In the graph of a create request every requirement has a Deployment of its own, unless the
  package forbids multiple deployments; that one is shared by all that require it, and takes
  the name of a stored Deployment (`OtherNodesHaveOneParent`, `EveryRequirementHasItsChild`).
- A child that is no longer stored keeps a delete request of type ALL from being accepted. The
  request dereferences nil, unless it is refused earlier: for parents of the root, for its
  depth, or for a target with an outside parent that is visited before the hole. After a delete request that failed half-way this is permanent: every retry
  meets the hole (`MissingChildIsNeverAccepted`, `RetryAfterPartialDeleteIsStuck`).
- A create request that names its clusters for all applications at once indexes an empty list
  exactly if the first required package has applications (`BuildGraph`).
- The isDeployed flag is set for every live Deployment with a package reference in every state
  of every run, over any catalog that holds no package without name and version and gains none
  that is in use already. These two assumptions are needed, and nothing else breaks the
  property (`NextKeepsFlagsIff`). With a nameless package in the catalog an empty reference can
  become one with a profile only and stay unflagged (`ProfileOnlyReferenceEscapes`); nothing in
  the code says that such packages exist.
- The other way round, a flag outlives the last Deployment of its package exactly after the
  steps that `Leaks` describes: an emptied reference, an index string that collides, an update
  rejected after the new flag was set, a finalizer given up in a pass that left others, and the
  deletion of an object without finalizers (`StepLeaksIff`, and `FailedPhaseLeaksTheFlag` for
  such a run).
- Repeating an auto-scaling update may add a target once more, but never twice;
  `OneApplicationSufficesIff` tells from the request and the stored list whether it does.
- A targeted request that names its clusters for all applications at once panics on a label map
  that was never allocated (`TargetedForAllApps`).
- From the request to the stored values and back, masking and unmasking give the override
  values of an application back without their empty strings, whatever its secret parameters
  are, unless one of them is the key of a struct with fields, which panics (`RequestRoundTrip`).
  A secret below an empty key at the top gets lost; `MaskUnmaskRoundTripIff` gives the exact
  condition.
- Whether a nested key is listed can depend on the order in which Go visits the map. If an
  empty string on a level above has the name of its last segment and was met before, the key is
  dropped, and a secret parameter of that name stays unmasked; every other key is listed in any
  order (`GetAllKeys`).
- The state Terminating is never stored, also not for Deployments marked for deletion: the
  deferred function of Reconcile
  (app-deployment-manager/controllers/deployment/deployment_controller.go:783-805) leaves
  before updateStatus would set it, although the comment at line 1348 announces it.
- Two apps of one name make every GitRepo run fail, because the second one is created again.
- A VNC session with several accounts that is turned away on a later one leaves the earlier
  ones counted for ever; with one account per session the counters are exact.
- The total of the cluster counts falls back to zero when it overflows 32 bits, while the
  buckets may still fit; clusters of an Unknown Deployment that are Down are in no bucket.
- The order of the list calls would break if an item lacked a field that others have
  (`StrictWeakOrderIff`); the three kinds of rows the API lists never do
  (`ListCallsAreDefined`).
- The count cookie is meant to be removed from the request
  (app-service-proxy/internal/rbac/rbac.go:73-74), but a second one is appended and the first
  one still answers; Authorize after Authenticate relies on that.

## Model

| member | source | states |
|---|---|---|
| DeleteTraversal.LongWalkIsWalk | app-deployment-manager/internal/northbound/app_dependency.go:23-42 | the depth check fails exactly when some walk of that many child edges leaves the root |
| DeleteTraversal.WithinIsReachable | app-deployment-manager/internal/northbound/app_dependency.go:23-42 | without such a walk, the names collected within the bound are exactly the reachable ones |
| DeleteTraversal.AcceptedIsAcyclic | app-deployment-manager/internal/northbound/app_dependency.go:23-42 | when the traversal accepts a root, no cycle is reachable from it |
| DeleteTraversal.CollectTargets | app-deployment-manager/internal/northbound/app_dependency.go:23-42 | succeeds exactly without a walk of the remaining depth, whatever the order of the map; then the list gains exactly the names within it |
| DeleteTraversal.CollectChildren | app-deployment-manager/internal/northbound/app_dependency.go:35-40 | the loop over the child map: the same for a set of roots, independent of the order |
| DeleteTraversal.ValidateTargets | app-deployment-manager/internal/northbound/app_dependency.go:44-55 | accepts exactly if every target is stored and has all its parents among the targets; a missing target is dereferenced |
| DeleteTraversal.DeploymentService.DeleteEach | app-deployment-manager/internal/northbound/northbound.go:1407-1413 | deletes all the targets or stops at the first failed call; the store is what deleting some of them leaves |
| DeleteTraversal.DeploymentService.DeleteGraph | app-deployment-manager/internal/northbound/northbound.go:1367-1414 | for type ALL: the exact conditions of success and of the depth error, the exact new store, no change on any refusal; a crash means a hole, a refusal a target with an outside parent |
| DeleteTraversal.DeploymentService.DeleteDeployment | app-deployment-manager/internal/northbound/northbound.go:1285-1413 | the same for both delete types; with only holes among the targets the request crashes, with only outside parents it is refused, with both one of the two |
| DeleteTraversal.AncestorsAreTargets | app-deployment-manager/internal/northbound/app_dependency.go:44-55 | a set closed under recorded parents contains whatever leads into it over live Deployments, when parent lists record all live parents |
| DeleteTraversal.DeleteIsSafe | app-deployment-manager/internal/northbound/northbound.go:1345-1413 | the targets are the reachable names; no live survivor lists a deleted Deployment, and none leads to one over live Deployments |
| DeleteTraversal.NoLiveSurvivorListsADeletedOne | app-deployment-manager/internal/northbound/northbound.go:1345-1413 | so it is in the store that the request leaves |
| DeleteTraversal.MissingChildIsNeverAccepted | app-deployment-manager/internal/northbound/app_dependency.go:44-55 | a reachable child that is not stored rules out success and, short of the depth error, is a hole among the targets |
| DeleteTraversal.EndIsVisitedOnce | app-deployment-manager/internal/northbound/app_dependency.go:23-42 | on a walk the traversal accepts, the last name occurs once |
| DeleteTraversal.RetryAfterPartialDeleteIsStuck | app-deployment-manager/internal/northbound/northbound.go:1407-1413 | once one target is gone and the others are as before, no retry can succeed |
| DeleteTraversal.GraphMayBeDeletedIff | app-deployment-manager/internal/northbound/app_dependency.go:23-55 | by walks and reachability alone: which requests are accepted, with the bound of 20 levels below the root |
| DeleteTraversal.ChainIsDeletedIff | app-deployment-manager/internal/northbound/utils.go:38 | a chain of Deployments is deleted from its root, all of it, exactly if it has at most 20 levels below it |
| LinkProtocol.NextKeepsInv | app-deployment-manager/controllers/deployment/deployment_controller.go:940-993 | every call of the protocol, failed or not, keeps the invariant of store and reconcilers |
| LinkProtocol.RunsKeepInv | app-deployment-manager/controllers/deployment/deployment_controller.go:816-828 | the invariant holds in every state of every run |
| LinkProtocol.NoEntryOutlivesItsParent | app-deployment-manager/controllers/deployment/deployment_controller.go:1048-1102 | a recorded parent is stored, still has the dependency finalizer and still lists the child |
| LinkProtocol.EntriesLeaveOnlyByUnlinking | app-deployment-manager/controllers/deployment/deployment_controller.go:952-988 | only the unlinking call of the parent itself, once it is being deleted, takes an entry from a stored child |
| LinkProtocol.LinkingCanComplete | app-deployment-manager/controllers/deployment/deployment_controller.go:816-859 | a reconcile of a live Deployment can go through with its stored children in any order; then exactly they name it, with its reference, and it counts as linked |
| LinkProtocol.UnlinkingCanComplete | app-deployment-manager/controllers/deployment/deployment_controller.go:887-993 | a reconcile of a Deployment that is being deleted can go through in any order; then nothing names it, and the finalizer or the object is gone |
| LinkProtocol.FinalizersAreAdded | app-deployment-manager/controllers/deployment/deployment_controller.go:816-824 | without its finalizers a live Deployment gets one of them first |
| LinkProtocol.RunsStayGuarded | app-deployment-manager/webhooks/deployment/deployment_webhook.go:87-114 | in every state of every run a live Deployment has the finalizers the webhook puts in |
| LinkProtocol.LiveDeploymentsCanBeLinked | app-deployment-manager/controllers/deployment/deployment_controller.go:748-853 | so from every state of every run a live idle Deployment whose children are stored can be linked to all of them |
| DependencyReconciler.Reconciler.LinkOne | app-deployment-manager/controllers/deployment/deployment_controller.go:1057-1099 | one turn of the linking loop is one step of the protocol, with its exact effect and failure condition |
| DependencyReconciler.Reconciler.ReconcileDependency | app-deployment-manager/controllers/deployment/deployment_controller.go:1048-1102 | succeeds exactly if every child is stored and its patch is not needed or works; then exactly the children record the parent |
| DependencyReconciler.Reconciler.UnlinkOne | app-deployment-manager/controllers/deployment/deployment_controller.go:954-988 | one turn of the unlinking loop |
| DependencyReconciler.Reconciler.HandleFinalizerDependency | app-deployment-manager/controllers/deployment/deployment_controller.go:940-993 | gives up the finalizer exactly if every needed patch worked; then no child records the parent |
| DependencyReconciler.Reconciler.Reconcile | app-deployment-manager/controllers/deployment/deployment_controller.go:748-938 | a whole reconcile as a run of the protocol: missing finalizers, linking of all children or up to the first that fails, unlinking and release |
| DependencyReconciler.SettledRecordsLiveParents | app-deployment-manager/controllers/deployment/deployment_controller.go:1048-1102 | once every live Deployment has linked all its children, parent lists record every live parent, whatever is being deleted |
| DependencyReconciler.DeleteInSettledStateIsSafe | app-deployment-manager/internal/northbound/northbound.go:1345-1413 | in such a state of any run, no live survivor of an accepted delete request lists a deleted Deployment, and no walk over live Deployments leads from a survivor to one |
| DependencyGraph.GraphBuilder.FindDependent | app-deployment-manager/internal/northbound/app_dependency.go:57-65 | finds a dependent of the package, or there is none |
| DependencyGraph.GraphBuilder.InitDeployment | app-deployment-manager/internal/northbound/northbound.go:78-313 | builds a finished node for the package and touches no other; fails without any target clusters, for an unknown package, or for a defect below; the exact condition of the index panic |
| DependencyGraph.GraphBuilder.AddDependencies | app-deployment-manager/internal/northbound/app_dependency.go:137-246 | the children of the node stand for exactly the requirements of its applications, counted; panics exactly on the first required package, if that has applications and there are no target clusters |
| DependencyGraph.GraphBuilder.AddApplication | app-deployment-manager/internal/northbound/app_dependency.go:148-245 | the same for what one application requires, in order |
| DependencyGraph.GraphBuilder.AddDependency | app-deployment-manager/internal/northbound/app_dependency.go:148-241 | one more requirement has its child, a new one unless the package forbids multiple deployments and has one; an unknown requirement of it fails before any indexing can panic |
| DependencyGraph.GraphBuilder.TakeName | app-deployment-manager/internal/northbound/app_dependency.go:214-236 | a package that forbids multiple deployments takes the name of its one stored Deployment; several are an error |
| DependencyGraph.BuildGraph | app-deployment-manager/internal/northbound/northbound.go:844-858 | over an acyclic catalog the recursion ends; when it panics on an empty list of targets, and otherwise when it succeeds, as conditions on targets, catalog and stored names |
| DependencyGraph.GraphHasNoDefect | app-deployment-manager/internal/northbound/app_dependency.go:137-246 | a finished graph proves that no package below the root is defective |
| DependencyGraph.NodeFor | app-deployment-manager/internal/northbound/app_dependency.go:137-246 | every transitively required package has a node, and it is a value of dependentDepls |
| DependencyGraph.NodeIsRequired | app-deployment-manager/internal/northbound/app_dependency.go:137-246 | every node stands for a transitively required package |
| DependencyGraph.CollapsedGraphIsTheRequirements | app-deployment-manager/internal/northbound/app_dependency.go:137-246 | collapsed by package, the edges are exactly the requirement relation below the root |
| DependencyGraph.ForbiddingPackagesAreShared | app-deployment-manager/internal/northbound/app_dependency.go:190-240 | a package that forbids multiple deployments has at most one node |
| DependencyGraph.OtherNodesHaveOneParent | app-deployment-manager/internal/northbound/app_dependency.go:170-192 | any other node has exactly one parent |
| DependencyGraph.EveryRequirementHasItsChild | app-deployment-manager/internal/northbound/app_dependency.go:137-246 | a node has as many children of a package as its applications require it, or one if the package forbids multiple deployments |
| DependencyGraph.NamesAreTakenOver | app-deployment-manager/internal/northbound/app_dependency.go:205-240 | a node of a forbidding package with a stored Deployment has the name of that one, every other node a name of its own |
| DeployedFlags.CatalogService.UpdateIsDeployed | app-deployment-manager/pkg/utils/utils.go:172-194 | the flag takes the value or stays, with the exact error for each failing call |
| DeployedFlags.IsDeployed | app-deployment-manager/pkg/utils/utils.go:143-170 | true exactly if another stored Deployment of the project shares the index string |
| DeployedFlags.ValidateCreate | app-deployment-manager/webhooks/deployment/deployment_webhook.go:118-139 | admission of a create and its effect on the flags |
| DeployedFlags.ValidateUpdate | app-deployment-manager/webhooks/deployment/deployment_webhook.go:141-200 | admission of an update and its effect on the flags of the old and the new package |
| DeployedFlags.HandleFinalizerCatalog | app-deployment-manager/controllers/deployment/deployment_controller.go:1019-1046 | clears the flag only if no other Deployment uses the package, and drops the finalizer unless a call fails |
| DeployedFlags.CreateIsAdmittedIff | app-deployment-manager/webhooks/deployment/deployment_webhook.go:118-139 | which creates are admitted; then the catalog has the package with its flag set |
| DeployedFlags.UpdateIsAdmittedIff | app-deployment-manager/webhooks/deployment/deployment_webhook.go:141-200 | which updates are admitted, as a condition on names, versions, catalog, other Deployments and failing calls |
| DeployedFlags.UpdateSetsAndClears | app-deployment-manager/webhooks/deployment/deployment_webhook.go:168-197 | an admitted change of version leaves the new flag set and the old one cleared unless needed; nothing else changes |
| DeployedFlags.CatalogFinalizerGoesIff | app-deployment-manager/controllers/deployment/deployment_controller.go:1019-1046 | when the catalog finalizer goes, and when the flag is cleared |
| DeployedFlags.UpdateKeepsOwnFlagIff | app-deployment-manager/webhooks/deployment/deployment_webhook.go:141-200 | the exact condition under which an update leaves its own Deployment live without the flag |
| DeployedFlags.NextKeepsFlagsIff | app-deployment-manager/webhooks/deployment/deployment_webhook.go:118-200 | every step keeps all live Deployments with a reference flagged, except exactly in two cases visible before it: that one, and a package that comes back in use |
| DeployedFlags.DeployedPackagesAreFlagged | app-deployment-manager/webhooks/deployment/deployment_webhook.go:118-200 | so they are in every state of every run over catalogs without nameless packages, with failing calls and colliding index strings, while packages leave and come |
| DeployedFlags.NamedPackagesAreFlagged | app-deployment-manager/webhooks/deployment/deployment_webhook.go:118-200 | over any catalog it holds of every reference with a name or a version |
| DeployedFlags.ProfileOnlyReferenceEscapes | app-deployment-manager/webhooks/deployment/deployment_webhook.go:154-167 | over a catalog with a package without name and version, a run of two requests that ends unflagged |
| DeployedFlags.FinalizeLeaksIff | app-deployment-manager/controllers/deployment/deployment_controller.go:1019-1046 | when a finalizer pass removes a Deployment and leaves its flag: not asked again after an incomplete pass, or a colliding index string |
| DeployedFlags.AdmittedUpdateLeaksIff | app-deployment-manager/webhooks/deployment/deployment_webhook.go:141-200 | when an admitted update leaves the flag of the old package behind |
| DeployedFlags.RejectedUpdateLeaksIff | app-deployment-manager/webhooks/deployment/deployment_webhook.go:141-200 | when a rejected update leaves the flag of the new package set |
| DeployedFlags.StepLeaksIff | app-deployment-manager/webhooks/deployment/deployment_webhook.go:118-200 | where every flagged package has a Deployment, a step ends that exactly under the conditions of its kind |
| DeployedFlags.FlaggedPackagesAreDeployed | app-deployment-manager/pkg/utils/utils.go:149-194 | so over runs: flagged packages have a stored Deployment in every state up to exactly the first step that leaks |
| DeployedFlags.SmoothRunsDoNotLeak | app-deployment-manager/controllers/deployment/deployment_controller.go:1019-1046 | no step of a run leaks without failed calls, collisions, empty references and incomplete finalizer passes, while the package an update leaves is in the catalog |
| DeployedFlags.AppRefTellsPackagesApart | app-deployment-manager/pkg/utils/utils.go:143-147 | index strings do not collide when versions contain no dash |
| DeployedFlags.FailedPhaseLeaksTheFlag | app-deployment-manager/controllers/deployment/deployment_controller.go:893-905 | a run in which another phase fails and the flag outlives the last Deployment |
| AutoScalingTargets.LabelsMatch | app-deployment-manager/internal/northbound/utils.go:78-88 | equality of label maps, from sizes and one-sided lookups |
| AutoScalingTargets.AddTarget | app-deployment-manager/internal/northbound/utils.go:173-249 | appends the whole label set, only its new pairs, or nothing |
| AutoScalingTargets.TargetsFor | app-deployment-manager/internal/northbound/utils.go:131-250 | the targets of one application after a create or an update |
| AutoScalingTargets.TargetsAreItsOwn | app-deployment-manager/internal/northbound/utils.go:131-147 | the targets are those of the first stored application of the name, or none, followed by what entries of this application add; without entries nothing is added |
| AutoScalingTargets.MergeAccumulates | app-deployment-manager/internal/northbound/utils.go:173-249 | stored targets stay a prefix, targets stay distinct, and apart from the project the pairs are the union |
| AutoScalingTargets.AddedTargetsAreNewOrWhole | app-deployment-manager/internal/northbound/utils.go:173-249 | an added target is a requested label set, or pairs that were nowhere before |
| AutoScalingTargets.TwoApplicationsSuffice | app-deployment-manager/internal/northbound/utils.go:173-249 | repeating a request reaches a fixed point after two applications |
| AutoScalingTargets.WholeIff | app-deployment-manager/internal/northbound/utils.go:173-249 | a requested label set ends up in the list as a whole exactly if at one of its places in the request its pairs are all known or all new |
| AutoScalingTargets.OneApplicationSufficesIff | app-deployment-manager/internal/northbound/utils.go:173-249 | one application is enough exactly if that holds of every requested label set |
| AutoScalingTargets.OneApplicationMayNotSuffice | app-deployment-manager/internal/northbound/utils.go:173-249 | an update for which it is not |
| TargetedClusters.MergeInto | app-deployment-manager/internal/northbound/utils.go:167-172 | the label map of the earlier entry takes all labels of the later one, in place |
| TargetedClusters.PlaceOne | app-deployment-manager/internal/northbound/utils.go:145-172 | one requested entry is merged into the entry of its cluster or appended |
| TargetedClusters.TargetsFor | app-deployment-manager/internal/northbound/utils.go:121-250 | panics exactly on an entry of the application without a label map; otherwise the placed entries |
| TargetedClusters.ClustersAreItsOwn | app-deployment-manager/internal/northbound/utils.go:145-172 | the clusters of an application are those its own entries name |
| TargetedClusters.LabelsAreItsOwn | app-deployment-manager/internal/northbound/utils.go:145-172 | a target has exactly the labels that its own entries give the cluster, each from the last one |
| TargetedClusters.UnnamedStayApart | app-deployment-manager/internal/northbound/utils.go:155-172 | entries without a cluster are never merged |
| TargetedClusters.ClustersInFirstOccurrenceOrder | app-deployment-manager/internal/northbound/utils.go:145-172 | the requested clusters, in the order of their first occurrence |
| TargetedClusters.ClustersOccurOnce | app-deployment-manager/internal/northbound/utils.go:145-172 | one entry for each named cluster |
| TargetedClusters.EntriesCarryLastWrittenLabels | app-deployment-manager/internal/northbound/utils.go:145-172 | each label has the value that was written last for the cluster |
| TargetedClusters.MergeAllApps | app-deployment-manager/internal/northbound/utils.go:1078-1098 | without listed entries: one for each app; targeted ones have no label map, the others share one |
| TargetedClusters.FillAllApps | app-deployment-manager/internal/northbound/utils.go:1099-1128 | with listed entries: under auto-scaling the labels fill in what the entries of the apps lack, in place and through shared maps; nothing else changes |
| TargetedClusters.TargetedForAllApps | app-deployment-manager/internal/northbound/utils.go:1085-1089 | a targeted request of this form panics for every app it names |
| TargetedClusters.CollectUnique | app-deployment-manager/internal/northbound/northbound.go:1760-1775 | the parent's targets, the first one of each cluster |
| TargetedClusters.AddMissing | app-deployment-manager/internal/northbound/northbound.go:1795-1815 | appends the targets of clusters that are missing, and says whether there were any |
| TargetedClusters.PropagateTo | app-deployment-manager/internal/northbound/northbound.go:1713-1816 | the child after propagation, and whether it has to be written |
| TargetedClusters.DeploymentSpecs.PropagateTargets | app-deployment-manager/internal/northbound/northbound.go:1709-1830 | every child that can be read and written is updated, nothing else is |
| TargetedClusters.ChildrenReachTheParentsClusters | app-deployment-manager/internal/northbound/northbound.go:1760-1827 | own targets stay a prefix, the clusters become the union with the parent's, each once |
| TargetedClusters.AddedTargetsAreTheParents | app-deployment-manager/internal/northbound/northbound.go:1760-1775 | what is added is the first target of its cluster among the parent's applications |
| TargetedClusters.ChildrenTakeTheParentsTargets | app-deployment-manager/internal/northbound/northbound.go:1717-1757 | under auto-scaling every application of a child gets the targets of the parent's first application, and nothing else changes but the type |
| TargetedClusters.PropagationIsIdempotent | app-deployment-manager/internal/northbound/northbound.go:1709-1830 | running it again changes nothing |
| OverrideValues.MaskPbValue | app-deployment-manager/internal/northbound/utils.go:857-885 | one call masks the string behind the name and returns it, whatever the order of the fields; panics exactly if the name ends at a struct with fields |
| OverrideValues.PanicsIff | app-deployment-manager/internal/northbound/utils.go:857-885 | the panic, for structs at most 20 levels down |
| OverrideValues.MaskedAddsOne | app-deployment-manager/internal/northbound/utils.go:857-885 | within the depth bound that is exactly one more masked name, and every other value is as before |
| OverrideValues.MaskedAddsNothing | app-deployment-manager/internal/northbound/utils.go:857-885 | a name that leads to no string changes nothing |
| OverrideValues.MaskedReads | app-deployment-manager/internal/northbound/utils.go:857-885 | string by string, what a tree with masked names reads as |
| OverrideValues.MaskingGoes21Deep | app-deployment-manager/internal/northbound/utils.go:857-885 | a name of at most 21 segments is masked, a longer one is not |
| OverrideValues.MaskSecrets | app-deployment-manager/internal/northbound/utils.go:1033-1059 | every secret that was given and leads to a string is masked, every one that was given is saved, nothing else changes; the exact condition of the panic |
| OverrideValues.UnmaskList | app-deployment-manager/internal/northbound/utils.go:1235-1240 | structs inside lists are unmasked under bracketed keys |
| OverrideValues.UnmaskSecrets | app-deployment-manager/internal/northbound/utils.go:1218-1243 | every placeholder with a saved string under its full key is replaced, whatever the order |
| OverrideValues.UnmaskedReads | app-deployment-manager/internal/northbound/utils.go:1218-1243 | leaf by leaf, through structs and lists: a placeholder gets the string saved under its name, every other leaf is as it was |
| OverrideValues.MaskUnmaskRoundTripIff | app-deployment-manager/internal/northbound/utils.go:1218-1243 | masking and unmasking restores the tree exactly if each string below an empty top key is looked up under the name that saved it |
| OverrideValues.MaskUnmaskRoundTrip | app-deployment-manager/internal/northbound/utils.go:1218-1243 | so it does whenever no top key is empty |
| OverrideValues.SecretsRoundTrip | app-deployment-manager/internal/northbound/utils.go:1033-1059 | masking the secrets of a key list and unmasking with what was saved restores the tree, unless it panics |
| OverrideValues.SecretBelowEmptyKeyIsLost | app-deployment-manager/internal/northbound/utils.go:1218-1224 | a tree and a name for which the secret stays masked |
| OverrideKeys.NoEmptyStringIsLeft | app-deployment-manager/internal/northbound/utils.go:906-942 | no string in a struct nested within the bound is empty afterwards |
| OverrideKeys.OtherStringsAreKept | app-deployment-manager/internal/northbound/utils.go:906-942 | every other string is where it was |
| OverrideKeys.PrunedReads | app-deployment-manager/internal/northbound/utils.go:906-942 | value by value: exactly the empty strings at most 21 levels down are gone |
| OverrideKeys.CleanUpList | app-deployment-manager/internal/northbound/utils.go:888-903 | the entries of the first list that are not in the second |
| OverrideKeys.GetAllKeys | app-deployment-manager/internal/northbound/utils.go:906-942 | prunes in place and lists what stands in the pruned tree, without duplicates: no nested key with the name of an empty string met before, and every other one unless an empty string above it has that name |
| OverrideKeys.NestedKeysResolve | app-deployment-manager/internal/northbound/utils.go:906-942 | a listed key of two or more segments leads to a value of the pruned tree |
| OverrideKeys.EnumerateKeys | app-deployment-manager/internal/northbound/northbound.go:146-160 | the enumeration from the root |
| OverrideKeys.ListedKeysLead | app-deployment-manager/internal/northbound/utils.go:906-942 | the keys meet what masking needs of them |
| OverrideKeys.RequestRoundTrip | app-deployment-manager/internal/northbound/northbound.go:146-160 | enumeration, masking and unmasking together: whatever the secrets are, the pruned tree comes back unless one of them is the key of a struct with fields |
| Conditions.UpdateStatusCondition | app-deployment-manager/pkg/utils/utils.go:390-418 | one entry of the type, overwritten in place or appended, keeping its transition time while the status stays |
| Conditions.UpdateRecords | app-deployment-manager/pkg/utils/utils.go:390-418 | the transition time stays the start of the present stretch of equal statuses |
| Conditions.StretchIsUniform | app-deployment-manager/pkg/utils/utils.go:390-418 | throughout that stretch the recorded status was the present one, and just before it another |
| ClusterStatus.BundleState | app-deployment-manager/pkg/utils/utils.go:206-218 | Running exactly for a ready bundle that is applied as specified, with a true Ready condition or only modified; Down otherwise |
| ClusterStatus.Working.AddApps | app-deployment-manager/controllers/deploymentcluster/deploymentcluster_controller.go:602-633 | Running exactly if all bundles run; the counts are those of running and other bundles, and every bundle is listed |
| ClusterStatus.SetReady | app-deployment-manager/controllers/deploymentcluster/deploymentcluster_controller.go:186-200 | Ready is True exactly for state Running |
| ClusterStatus.CreatedIff | app-deployment-manager/controllers/deploymentcluster/deploymentcluster_controller.go:476-517 | when a DeploymentCluster is created and when nothing happens |
| ClusterStatus.ClusterController.CreateCluster | app-deployment-manager/controllers/deploymentcluster/deploymentcluster_controller.go:476-517 | creates exactly if the first bundle that stands for the cluster has its project label; without such a bundle it does nothing |
| ClusterStatus.ClusterController.Reconcile | app-deployment-manager/controllers/deploymentcluster/deploymentcluster_controller.go:105-210 | the exact outcome; the stored status always sums up the bundles and the Ready history of the patches, through creations, deletions and failures |
| DeploymentStatus.CountsDecide | app-deployment-manager/controllers/deployment/deployment_controller.go:1628-1664 | the cluster counts decide what the state asks of the clusters, and add up |
| DeploymentStatus.WorkingDeployment.ReconcileState | app-deployment-manager/controllers/deployment/deployment_controller.go:1104-1121 | every condition is removed and the Deployment is in progress |
| DeploymentStatus.WorkingDeployment.RunPhases | app-deployment-manager/controllers/deployment/deployment_controller.go:913-938 | what a run of all phases leaves, for every combination of failing phases |
| DeploymentStatus.WorkingDeployment.UpdateStalled | app-deployment-manager/controllers/deployment/deployment_controller.go:1373-1413 | NotStalled follows the git jobs while the Deployment is in progress |
| DeploymentStatus.WorkingDeployment.CountClusters | app-deployment-manager/controllers/deployment/deployment_controller.go:1628-1664 | the counts, with the readiness delay and the generations |
| DeploymentStatus.WorkingDeployment.UpdateDeploymentStatus | app-deployment-manager/controllers/deployment/deployment_controller.go:1590-1715 | the computed state, the counts and the in-progress mark |
| DeploymentStatus.WorkingDeployment.UpdateStatus | app-deployment-manager/controllers/deployment/deployment_controller.go:1347-1427 | the status update as a relation between the state before and after |
| DeploymentStatus.ReconcileKeepsConsistent | app-deployment-manager/controllers/deployment/deployment_controller.go:748-859 | a reconcile keeps Running and Down out of progress, Deploying and Updating in progress, and Ready true to the last full run |
| DeploymentStatus.DeploymentController.Reconcile | app-deployment-manager/controllers/deployment/deployment_controller.go:748-859 | the method is that relation, and keeps the invariant, with failing reads and patches; a Deployment marked for deletion keeps its status |
| DeploymentStatus.RunsStayConsistent | app-deployment-manager/controllers/deployment/deployment_controller.go:748-938 | the invariant in every state of every run of reconciles, Spec changes and deletions; so Terminating is never stored |
| DeploymentStatus.SkippedRunsAreUpToDate | app-deployment-manager/controllers/deployment/deployment_controller.go:835-851 | the phases are left out only if the last full run was for this Spec and went well |
| DeploymentStatus.GoodRunsAreNotRepeated | app-deployment-manager/controllers/deployment/deployment_controller.go:835-851 | after a full run that went well the next reconcile for the same Spec and URL leaves what was recorded |
| DeploymentStatus.ChangesAreTakenUp | app-deployment-manager/controllers/deployment/deployment_controller.go:835-857 | after a change or a failure the next reconcile that gets to the phases records them anew |
| DeploymentStatus.RunningIff | app-deployment-manager/controllers/deployment/deployment_controller.go:1666-1708 | exactly when a status update finds a Deployment Running |
| DeploymentStatus.InternalErrorIff | app-deployment-manager/controllers/deployment/deployment_controller.go:1370-1423 | exactly when it finds InternalError, from the earlier conditions and the git jobs |
| DeploymentStatus.ErrorIff | app-deployment-manager/controllers/deployment/deployment_controller.go:1598-1649 | Error: otherwise, a repository stalls in progress or a Down cluster has exceeded its deadline |
| DeploymentStatus.UnknownIff | app-deployment-manager/controllers/deployment/deployment_controller.go:1668-1671 | Unknown: otherwise, a cluster is |
| DeploymentStatus.NoTargetClustersIff | app-deployment-manager/controllers/deployment/deployment_controller.go:1672-1687 | NoTargetClusters: there are none, late enough or not in progress |
| DeploymentStatus.DownIff | app-deployment-manager/controllers/deployment/deployment_controller.go:1689-1701 | Down: some cluster is not steady, not in progress |
| DeploymentStatus.UpdatingIff | app-deployment-manager/controllers/deployment/deployment_controller.go:1689-1701 | Updating: so it is in progress after the first generation |
| DeploymentStatus.DeployingIff | app-deployment-manager/controllers/deployment/deployment_controller.go:1672-1701 | Deploying: so it is for the first, or it is too early to miss the clusters |
| DeploymentStatus.FullRunsReportFailures | app-deployment-manager/controllers/deployment/deployment_controller.go:913-938 | a run of all phases ends in InternalError exactly if a phase or a git job failed |
| DeploymentStatus.SummaryCounts | app-deployment-manager/controllers/deployment/deployment_controller.go:1628-1664 | the summary as numbers of clusters |
| DeploymentStatus.RunningIsSound | app-deployment-manager/controllers/deployment/deployment_controller.go:1634-1703 | then it has clusters, and in each every bundle runs at its generation and Ready has been True for more than ten seconds |
| ClusterCounts.CountClusters | app-deployment-manager/internal/northbound/northbound.go:702-783 | every counter is its shares added up in 32 bits, and never negative |
| ClusterCounts.EachStateHasItsColumns | app-deployment-manager/internal/northbound/northbound.go:742-781 | state by state, what a Deployment puts into each counter |
| ClusterCounts.ReportsAre | app-deployment-manager/internal/northbound/utils.go:51-74 | a status is reported with its own numbers, cut off at the largest 32-bit one, and no state as Deploying |
| ClusterCounts.WithoutOverflow | app-deployment-manager/internal/northbound/northbound.go:714-783 | a counter is the plain sum exactly if that fits |
| ClusterCounts.EveryClusterInABucketIff | app-deployment-manager/internal/northbound/northbound.go:742-781 | which Deployments have every cluster in a bucket |
| ClusterCounts.BucketsMakeUpTheTotal | app-deployment-manager/internal/northbound/northbound.go:702-783 | with a total that fits the buckets never exceed it, and equal it exactly if all Deployments are such |
| ClusterCounts.OverflowLosesTheTotal | app-deployment-manager/internal/northbound/northbound.go:719-723 | two Deployments whose total does not fit |
| ClusterCounts.ComputedStatusesFillBuckets | app-deployment-manager/controllers/deployment/deployment_controller.go:1628-1714 | a computed status is such unless it is Unknown with clusters Down |
| GitRepos.TrimUndoesNaming | app-deployment-manager/controllers/deployment/deployment_controller.go:1718-1725 | trimming the suffix undoes the naming of a repo |
| GitRepos.GitRepoController.WriteRepo | app-deployment-manager/controllers/deployment/deployment_controller.go:1239-1321 | the repo after an update or a creation, and when either fails |
| GitRepos.GitRepoController.ReconcileGitRepo | app-deployment-manager/controllers/deployment/deployment_controller.go:1212-1345 | the exact condition of success, the repos it leaves, and how far a failed run may have come |
| GitRepos.PathsStayMatched | app-deployment-manager/controllers/deployment/deployment_controller.go:1293-1302 | the paths always name the app of the repo, although updates never write them |
| GitRepos.RetriesConverge | app-deployment-manager/controllers/deployment/deployment_controller.go:1212-1345 | after any failed runs a successful one ends where the first would have, and one more changes nothing |
| GitRepos.RetriesStayPossible | app-deployment-manager/controllers/deployment/deployment_controller.go:1308-1312 | no failed run makes a later one impossible |
| GitRepos.SuccessServesEveryApp | app-deployment-manager/controllers/deployment/deployment_controller.go:1212-1345 | success means a repo with the URL, secrets, selectors, labels and path of each app; an update keeps what is not its own, a creation sets the type, project and interval |
| SessionCounters.Counter.Increase | app-resource-manager/internal/wsproxy/counter.go:57-81 | adds one, or changes nothing if the limit is reached or cannot be read |
| SessionCounters.Counter.Decrease | app-resource-manager/internal/wsproxy/counter.go:83-101 | takes one away, or changes nothing if there is none |
| SessionCounters.SessionHandler.Handle | app-resource-manager/internal/kubevirt/manager.go:344-386 | by itself: exactly which sessions are served; those leave the counters as they were, and a rejected one leaves the accounts before the first one that is not free |
| SessionCounters.ReleasesSucceed | app-resource-manager/internal/kubevirt/manager.go:355-386 | no release ever fails |
| SessionCounters.StepKeepsExact | app-resource-manager/internal/kubevirt/manager.go:344-386 | any access of any session keeps the counters equal to what the sessions hold and have leaked |
| SessionCounters.RunsStayExact | app-resource-manager/internal/kubevirt/manager.go:344-386 | so they are under every interleaving |
| SessionCounters.AdmittedIff | app-resource-manager/internal/wsproxy/counter.go:57-81 | in every state of every run: which sessions get their address and their next account, by the numbers of holds and leaks |
| SessionCounters.LimitsAreKept | app-resource-manager/internal/wsproxy/counter.go:72-79 | a positive limit is never exceeded, per address and per account |
| SessionCounters.AccountsAgreeIff | app-resource-manager/internal/kubevirt/manager.go:363-386 | account counters equal the held accounts exactly if no session was rejected after its first account, so always with at most one |
| SessionCounters.LeaksStay | app-resource-manager/internal/kubevirt/manager.go:363-386 | a leak is never made good, and a limit's worth of leaks shuts the account out |
| SessionCounters.SecondAccountMayLeakTheFirst | app-resource-manager/internal/kubevirt/manager.go:363-375 | a run of one session that leaks |
| TokenCookies.AtoiUndoesItoa | app-resource-manager/internal/kubevirt/manager.go:487-494 | the count survives being written and parsed |
| TokenCookies.NamesAreApart | app-service-proxy/internal/rbac/rbac.go:33-36 | no numbered cookie is named like the count or like another one, for both proxies |
| TokenCookies.Page.SaveToken | app-service-proxy/web-login/app-service-proxy-main.js:95-103 | the cookies hold the token in parts of 2000, the last one of the rest, and all other cookies stay |
| TokenCookies.Request.GetCombinedToken | app-resource-manager/internal/kubevirt/manager.go:478-508 | the reassembled token or the exact error |
| TokenCookies.ReassembledIff | app-resource-manager/internal/kubevirt/manager.go:478-508 | when there is a token, and otherwise which cookie is missing or what is not a number |
| TokenCookies.Request.TakeCombinedToken | app-service-proxy/internal/rbac/rbac.go:65-96 | the same, and the appended empty count cookie changes no later reassembly |
| TokenCookies.Request.AuthenticateAndAuthorize | app-service-proxy/internal/rbac/rbac.go:49-108 | both reassemblies on one request agree |
| TokenCookies.TokenRoundTrip | app-resource-manager/vnc-proxy-web-ui/vnc-proxy-main.js:115-123 | every token comes back, whatever stale cookies there are and in whatever order they are sent |
| TokenCookies.LogInAgain | app-service-proxy/web-login/app-service-proxy-main.js:95-103 | saving a token over an earlier one, and both reassemblies return the new one |
| DataSelector.ValueOrder | app-deployment-manager/pkg/utils/dataselector/std_comparable_types.go:17-30 | Compare is a total preorder on values of one kind |
| DataSelector.StringsAreInCharacterOrder | app-deployment-manager/pkg/utils/dataselector/std_comparable_types.go:25-30 | strings are ordered by the first character in which they differ, and a prefix comes first |
| DataSelector.CaseIsIgnored | app-deployment-manager/pkg/utils/dataselector/std_comparable_types.go:25-30 | strings are on a par exactly if they agree up to the case of letters |
| DataSelector.LessIff | app-deployment-manager/pkg/utils/dataselector/dataselector.go:42-58 | Less by the first field in which two items differ, and its direction |
| DataSelector.LessIsAStrictWeakOrder | app-deployment-manager/pkg/utils/dataselector/dataselector.go:42-58 | on items that all have a field or all lack it, Less is a strict weak order |
| DataSelector.StrictWeakOrderIff | app-deployment-manager/pkg/utils/dataselector/dataselector.go:42-58 | on comparable values Less is a strict weak order exactly if at each field all items on a par so far have it, or no two of them are Less |
| DataSelector.MissingFieldBreaksTheOrder | app-deployment-manager/pkg/utils/dataselector/dataselector.go:42-58 | items of the bare interface for which it is not |
| DataSelector.ListCallsAreDefined | app-deployment-manager/pkg/utils/dataselector/datatypes/deployment.go:15-32 | in every list the API makes, for every request, all comparisons and matches are defined and Less is a strict weak order |
| DataSelector.RowsHaveTheseFields | app-deployment-manager/pkg/utils/dataselector/datatypes/deployment.go:15-32 | the fields of the rows of each type |
| DataSelector.Selector.AnyClauseMatches | app-deployment-manager/pkg/utils/dataselector/dataselector.go:73-84 | an item is kept exactly if some clause matches |
| DataSelector.ContainsIff | app-deployment-manager/pkg/utils/dataselector/std_comparable_types.go:32-46 | a clause looks for its text anywhere in the field, whatever the case, or is a pattern |
| DataSelector.Selector.Filter | app-deployment-manager/pkg/utils/dataselector/dataselector.go:67-89 | the list keeps exactly those items, in order |
| DataSelector.FilteredAre | app-deployment-manager/pkg/utils/dataselector/dataselector.go:67-89 | each as often as before |
| DataSelector.Selector.Sort | app-deployment-manager/pkg/utils/dataselector/dataselector.go:60-64 | sorts by swapping as Less says |
| DataSelector.SortedIsOrdered | app-deployment-manager/pkg/utils/dataselector/dataselector.go:37-64 | the result is an ordered permutation |
| DataSelector.SliceIsInRange | app-deployment-manager/pkg/utils/dataselector/pagination.go:59-77 | no page is out of range, even when offset and size overflow 64 bits |
| DataSelector.PageIs | app-deployment-manager/pkg/utils/dataselector/pagination.go:59-77 | which items a page has |
| DataSelector.Selector.Paginate | app-deployment-manager/pkg/utils/dataselector/dataselector.go:91-103 | leaves the items of the page |
| DataSelector.Select | app-deployment-manager/internal/northbound/dataselection.go:14-65 | one list call over any list and request: the page of an ordered arrangement of the matching items, 20 by default, or an error exactly for a negative page size or one above 500 |
| DataSelector.AllPagesAreTheSelection | app-deployment-manager/pkg/utils/dataselector/dataselector.go:60-103 | however equal items are ordered, the pages of one size make up an ordered permutation of exactly the rows for which some part of the filter holds |

## Left out

- Kubernetes, catalog, OPA, Vault, Git, Nexus and KubeVirt clients: maps with atomic calls that may fail.
- Metrics, events, logs, timestamps for metrics and the deletion metadata cache: they decide nothing.
- `cleanupOrphanedBundleDeployments` and the guesses on metric names: heuristics on name parts.
- Secrets, Fleet files and their YAML and JSON encodings; of secrets only the saved name-to-value map is kept.
- Wildcard patterns of filter clauses and RFC 3339 comparison: library code; a pattern match is a parameter, and letters beyond ASCII are not folded.
- `trimAllPbStructStrings`, `updatePbValue` and the search for missing mandatory parameters: the recursion of masking again, with easy members at the leaves.
- OverrideValues.MaskPbValue: trees are values, so aliasing between protobuf structs and the update in place are not captured; the caller hands in one entry for each app.
- OverrideValues.UnmaskSecrets: trees are values here too; keys with dots or brackets are covered by the method but not by the round trip.
- OverrideValues.MaskSecrets: names of parameters are unique within an application; of a key list with dots inside segments nothing is said.
- OverrideKeys.GetAllKeys: completeness and the lack of duplicates are stated for trees without dots in their keys; for a key that an empty string on a level above may drop, the order of the visit decides, and the order is not part of the result.
- TargetedClusters.TargetsFor: label maps shared between entries of a targeted request are excluded; the one place that shares a map makes entries of the other type.
- DeleteTraversal.DeploymentService.DeleteDeployment: authorization, secrets and the lookup by display name or UID are left out.
- LinkProtocol.NextKeepsInv: names are never reused, reads of a reconcile are fresh, reconciles of one Deployment do not overlap, and Deployments marked for deletion are not updated.
- DependencyReconciler.Reconciler.Reconcile: every reconcile of a live Deployment with its finalizers runs the linking here; the code leaves all phases out when nothing has changed since a run that went well.
- DependencyGraph.BuildGraph: generated names are fresh, package IDs do not collide through slashes in their parts, and each stored Deployment belongs to one package. In the code the recursion also fails on failing calls, invalid target entries, namespace rules and missing mandatory parameters; here only the catalog, the stored names and the number of targets decide.
- DeployedFlags.NextKeepsFlagsIff: admission and the write that follows are one step, and the same holds for the check and the update of the catalog phase; a package enters the catalog with its flag cleared.
- DeploymentStatus.DeploymentController.Reconcile: a patch writes the whole status or nothing, and messages are left out; what the finalizers of a Deployment marked for deletion do is in `DeployedFlags` and `DependencyReconciler`.
- ClusterStatus.ClusterController.Reconcile: the bundles, their order and the cluster come from the caller, of the labels only the cluster and the project matter; transition times are whole seconds.
- DeploymentStatus.RunningIsSound: both controllers read one clock, and the cluster statuses are those their controller stored last.
- GitRepos.GitRepoController.ReconcileGitRepo: generated target names are left out, the hashed bundle name is a field of the app, and existing repos have a label map.
- SessionCounters.RunsStayExact: the counters live in one process and are not reset.
- TokenCookies.TokenRoundTrip: token characters need no escaping in cookies, and all cookies come in one header line.
- DataSelector.Selector.Sort: insertion sort stands for the library's sort; the theorem on pages holds for any ordered permutation, as long as it is the same one for each page.
- OpenAPI merging, HTML, CSS and JavaScript rewriting, the REST path rewriter, `patch.go`, and all other web pages.
