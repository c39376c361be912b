/** The status of a DeploymentCluster: the bundles of one Deployment on one cluster, folded
    into a state and a Ready condition. */
module ClusterStatus {
  import opened Deployments
  import opened Conditions

  datatype StateType =
    | NoState
    | Down
    | Running
    | Unknown
    | Error
    | InternalError
    | Deploying
    | Updating
    | Terminating
    | NoTargetClusters

  /** A BundleDeployment; `ready` is the status of its first Ready condition. */
  datatype Bundle = Bundle(
    name: string,
    generation: int,
    ready: Option<CondStatus>,
    specId: string,
    appliedId: string,
    isReady: bool,
    nonModified: bool,
    display: string)

  datatype App = App(name: string, generation: int, state: StateType)

  datatype Status = Status(state: StateType, total: nat, running: nat, down: nat, apps: seq<App>, conditions: seq<Condition>)

  /** GetState: what is applied is what is wanted, and it is ready, or was only modified. */
  function BundleState(bd: Bundle): (s: StateType)
    ensures s == Running <==>
              && bd.specId == bd.appliedId && bd.isReady && bd.ready.Some?
              && (bd.ready.value == ConditionTrue || (!bd.nonModified && bd.display == "Modified"))
    ensures s != Running ==> s == Down
  {
    if bd.ready.Some? && bd.specId == bd.appliedId then
      if bd.ready.value == ConditionTrue && bd.isReady then Running
      else if bd.isReady && !bd.nonModified && bd.display == "Modified" then Running
      else Down
    else Down
  }

  function AppOf(bd: Bundle): App {
    App(bd.name, bd.generation, BundleState(bd))
  }

  /** The places of the bundles that run, among the first `n`. */
  function RunningOnes(bundles: seq<Bundle>, n: nat): set<nat> {
    set i: nat | i < n && i < |bundles| && BundleState(bundles[i]) == Running
  }

  lemma RunningOnesGrow(bundles: seq<Bundle>, n: nat)
    requires n < |bundles|
    ensures |RunningOnes(bundles, n + 1)| == |RunningOnes(bundles, n)| + (if BundleState(bundles[n]) == Running then 1 else 0)
  {
    var more: set<nat> := if BundleState(bundles[n]) == Running then {n} else {};
    assert RunningOnes(bundles, n + 1) == RunningOnes(bundles, n) + more;
  }

  ghost predicate AllRunning(bundles: seq<Bundle>) {
    forall bd | bd in bundles :: BundleState(bd) == Running
  }

  /** The object that one reconcile works on. */
  class Working {
    var state: StateType
    var total: nat
    var running: nat
    var down: nat
    var apps: seq<App>
    var conditions: seq<Condition>

    constructor (s: Status)
      ensures Value() == s
    {
      state, total, running, down, apps, conditions := s.state, s.total, s.running, s.down, s.apps, s.conditions;
    }

    function Value(): Status
      reads this
    {
      Status(state, total, running, down, apps, conditions)
    }

    method InitializeStatus()
      modifies this
      ensures Value() == Status(Running, 0, 0, 0, [], old(conditions))
    {
      state, total, running, down, apps := Running, 0, 0, 0, [];
    }

    method AddApp(bd: Bundle)
      modifies this
      ensures apps == old(apps) + [AppOf(bd)] && total == old(total) + 1 && conditions == old(conditions)
      ensures BundleState(bd) == Running ==> running == old(running) + 1 && down == old(down) && state == old(state)
      ensures BundleState(bd) != Running ==> running == old(running) && down == old(down) + 1 && state == Down
    {
      var s := match BundleState(bd) case Running => Running case _ => Down;
      total := total + 1;
      if s == Running {
        running := running + 1;
      } else {
        down := down + 1;
        state := Down;
      }
      apps := apps + [App(bd.name, bd.generation, s)];
    }

    /** Down as soon as one bundle is, with every bundle counted once. */
    method AddApps(bundles: seq<Bundle>)
      requires Value() == Status(Running, 0, 0, 0, [], conditions)
      modifies this
      ensures Shows(Value(), false, bundles)
      ensures conditions == old(conditions)
    {
      assert RunningOnes(bundles, 0) == {};
      for i := 0 to |bundles|
        invariant running == |RunningOnes(bundles, i)|
        invariant total == running + down == i && conditions == old(conditions)
        invariant state == if AllRunning(bundles[..i]) then Running else Down
        invariant apps == seq(i, j requires 0 <= j < i => AppOf(bundles[j]))
      {
        assert bundles[..i + 1] == bundles[..i] + [bundles[i]];
        RunningOnesGrow(bundles, i);
        AddApp(bundles[i]);
      }
      assert bundles[..|bundles|] == bundles;
    }
  }

  /** The status that a look at `bundles` gives, the Ready condition apart. */
  ghost predicate Shows(s: Status, offline: bool, bundles: seq<Bundle>) {
    && s.state == (if offline then Unknown else if AllRunning(bundles) then Running else Down)
    && (!offline ==>
          && s.total == |bundles| == s.running + s.down && s.running == |RunningOnes(bundles, |bundles|)|
          && s.apps == seq(|bundles|, i requires 0 <= i < |bundles| =>
               App(bundles[i].name, bundles[i].generation, BundleState(bundles[i]))))
    && (offline ==> s.total == s.running == s.down == 0 && s.apps == [])
  }

  lemma ReadyIsNoMatter(s: Status, t: Status, offline: bool, bundles: seq<Bundle>)
    requires Shows(s, offline, bundles) && t == s.(conditions := t.conditions)
    ensures Shows(t, offline, bundles)
  {
  }

  function ReadyFor(s: StateType): CondStatus {
    if s == Running then ConditionTrue else ConditionFalse
  }

  /** The second half of a reconcile: the Ready condition follows the state. */
  method SetReady(dc: Working, offline: bool, now: int) returns (reason: string)
    modifies dc
    ensures dc.Value() == old(dc.Value()).(conditions := dc.conditions)
    ensures Find(dc.conditions, Ready) == Some(NewCondition(old(dc.conditions), Ready, ReadyFor(dc.state), reason, "", now))
  {
    var status := ConditionFalse;
    reason := if offline then "ClusterStatusUnknown" else "BundleDeploymentsNotReady";
    if dc.state == Running {
      status, reason := ConditionTrue, "BundleDeploymentsReady";
    }
    dc.conditions := UpdateStatusCondition(dc.conditions, Ready, status, reason, "", now);
  }

  // ---------------------------------------------------------------------------
  // Reconcile
  // ---------------------------------------------------------------------------

  datatype ClusterView = Missing | Unreadable | Offline | Online

  datatype Outcome = Created | NothingToDo | Deleted | Patched | Failed

  /** Of a BundleDeployment in the namespace: the DeploymentCluster its labels stand for, if they
      stand for one, and whether it carries the project label. */
  datatype BundleLabels = BundleLabels(cluster: Option<string>, hasProject: bool)

  /** The first bundle that stands for the cluster of this name. */
  function FirstFor(all: seq<BundleLabels>, name: string): Option<BundleLabels> {
    if all == [] then None
    else if all[0].cluster == Some(name) then Some(all[0])
    else FirstFor(all[1..], name)
  }

  /** A DeploymentCluster is created for the first bundle that stands for it, which must carry the
      project label; without such a bundle nothing happens. */
  function CreationOutcome(all: seq<BundleLabels>, name: string, listFails: bool, writeFails: bool): Outcome {
    if listFails then Failed
    else match FirstFor(all, name)
      case None => NothingToDo
      case Some(bd) => if !bd.hasProject || writeFails then Failed else Created
  }

  /** The object is created exactly if the first bundle that stands for the cluster carries the
      project label, and nothing happens exactly without such a bundle. */
  lemma {:induction false} CreatedIff(all: seq<BundleLabels>, name: string, listFails: bool, writeFails: bool)
    ensures CreationOutcome(all, name, listFails, writeFails) == Created <==>
              && !listFails && !writeFails
              && exists i :: 0 <= i < |all| && all[i] == BundleLabels(Some(name), true)
                             && forall j | 0 <= j < i :: all[j].cluster != Some(name)
    ensures CreationOutcome(all, name, listFails, writeFails) == NothingToDo <==>
              !listFails && forall i | 0 <= i < |all| :: all[i].cluster != Some(name)
    ensures CreationOutcome(all, name, listFails, writeFails) in {Created, NothingToDo, Failed}
  {
    if all != [] && all[0].cluster != Some(name) {
      var rest := all[1..];
      CreatedIff(rest, name, listFails, writeFails);
      assert forall i | 0 <= i < |rest| :: rest[i] == all[i + 1];
      if i :| 0 <= i < |rest| && rest[i] == BundleLabels(Some(name), true) && forall j | 0 <= j < i :: rest[j].cluster != Some(name) {
        assert all[i + 1] == BundleLabels(Some(name), true);
        assert forall j | 0 < j < i + 1 :: all[j] == rest[j - 1];
      }
      if i :| 0 <= i < |all| && all[i] == BundleLabels(Some(name), true) && forall j | 0 <= j < i :: all[j].cluster != Some(name) {
        assert rest[i - 1] == BundleLabels(Some(name), true);
      }
    }
  }

  const FRESH_STATUS := Status(NoState, 0, 0, 0, [], [])

  ghost predicate InTimeOrder(history: seq<Sample>) {
    forall a, b | 0 <= a < b < |history| :: history[a].at <= history[b].at
  }

  /** A stored status sums up the Ready statuses patched so far, `history`, and the bundles
      that the last patch looked at. */
  ghost predicate RecordOf(s: Status, history: seq<Sample>, bundles: seq<Bundle>) {
    && RecordedBy(s.conditions, Ready, history)
    && (history == [] ==> s == FRESH_STATUS)
    && (history != [] ==>
          && history[|history| - 1].status == ReadyFor(s.state)
          && bundles != [] && Shows(s, s.state == Unknown, bundles))
  }

  class ClusterController {
    const name: string
    /** The stored status; none as long as there is no DeploymentCluster. */
    var stored: Option<Status>
    ghost var history: seq<Sample>
    ghost var bundles: seq<Bundle>

    ghost predicate Valid()
      reads this
    {
      && InTimeOrder(history)
      && (stored.None? ==> history == [])
      && (stored.Some? ==> RecordOf(stored.value, history, bundles))
    }

    constructor (name: string)
      ensures Valid() && stored == None && this.name == name
    {
      this.name := name;
      stored, history, bundles := None, [], [];
    }

    /** createDeploymentCluster. */
    method CreateCluster(all: seq<BundleLabels>, listFails: bool, writeFails: bool) returns (outcome: Outcome)
      requires Valid() && stored == None
      modifies this
      ensures Valid() && outcome == CreationOutcome(all, name, listFails, writeFails)
      ensures stored == if outcome == Created then Some(FRESH_STATUS) else None
    {
      if listFails {
        return Failed;
      }
      for i := 0 to |all|
        invariant FirstFor(all, name) == FirstFor(all[i..], name)
        invariant Valid() && stored == None
      {
        assert all[i..][1..] == all[i + 1..];
        if all[i].cluster == Some(name) {
          if !all[i].hasProject || writeFails {
            return Failed;
          }
          stored := Some(FRESH_STATUS);
          return Created;
        }
      }
      return NothingToDo;
    }

    /** `all` are the bundles of the namespace, `matched` those of this Deployment and cluster. */
    method Reconcile(cluster: ClusterView, all: seq<BundleLabels>, matched: seq<Bundle>, listFails: bool, writeFails: bool, now: int)
      returns (outcome: Outcome)
      requires Valid() && (history != [] ==> history[|history| - 1].at <= now)
      modifies this
      ensures Valid()
      ensures outcome == Failed || outcome == NothingToDo ==> stored == old(stored)
      ensures outcome == Deleted ==> stored == None
      ensures outcome == Created ==> old(stored) == None && stored == Some(FRESH_STATUS)
      ensures outcome == Patched ==>
                && stored.Some? && bundles == matched
                && Shows(stored.value, cluster == Offline, matched)
                && history == old(history) + [Sample(ReadyFor(stored.value.state), now)]
      ensures outcome ==
              if old(stored).None? then CreationOutcome(all, name, listFails, writeFails)
              else if cluster != Missing && (cluster == Unreadable || listFails) then Failed
              else if writeFails then Failed
              else if cluster == Missing || matched == [] then Deleted
              else Patched
    {
      if stored.None? {
        outcome := CreateCluster(all, listFails, writeFails);
        return;
      }
      outcome := UpdateCluster(cluster, matched, listFails, writeFails, now);
    }

    method UpdateCluster(cluster: ClusterView, matched: seq<Bundle>, listFails: bool, writeFails: bool, now: int)
      returns (outcome: Outcome)
      requires Valid() && stored.Some? && (history != [] ==> history[|history| - 1].at <= now)
      modifies this
      ensures Valid()
      ensures outcome == Failed ==> stored == old(stored)
      ensures outcome == Deleted ==> stored == None
      ensures outcome == Patched ==>
                && stored.Some? && bundles == matched
                && Shows(stored.value, cluster == Offline, matched)
                && history == old(history) + [Sample(ReadyFor(stored.value.state), now)]
      ensures outcome ==
              if cluster != Missing && (cluster == Unreadable || listFails) then Failed
              else if writeFails then Failed
              else if cluster == Missing || matched == [] then Deleted
              else Patched
    {
      var dc := new Working(stored.value);
      dc.InitializeStatus();
      if cluster == Missing {
        outcome := Remove(writeFails);
        return;
      }
      if cluster == Unreadable || listFails {
        return Failed;
      }
      dc.AddApps(matched);
      if dc.total == 0 {
        outcome := Remove(writeFails);
        return;
      }
      if cluster == Offline {
        dc.InitializeStatus();
        dc.state := Unknown;
      }
      outcome := PatchStatus(dc, cluster == Offline, matched, writeFails, now);
    }

    /** The Ready condition, and the closing patch. */
    method PatchStatus(dc: Working, offline: bool, ghost matched: seq<Bundle>, writeFails: bool, now: int) returns (outcome: Outcome)
      requires Valid() && stored.Some? && (history != [] ==> history[|history| - 1].at <= now)
      requires Shows(dc.Value(), offline, matched) && matched != [] && dc.conditions == stored.value.conditions
      modifies this, dc
      ensures Valid() && outcome == if writeFails then Failed else Patched
      ensures outcome == Failed ==> stored == old(stored)
      ensures outcome == Patched ==>
                && stored.Some? && bundles == matched && Shows(stored.value, offline, matched)
                && history == old(history) + [Sample(ReadyFor(stored.value.state), now)]
    {
      ghost var shown := dc.Value();
      var reason := SetReady(dc, offline, now);
      ReadyIsNoMatter(shown, dc.Value(), offline, matched);
      if writeFails {
        return Failed;
      }
      Commit(dc.Value(), reason, offline, matched, now);
      return Patched;
    }

    method Commit(s: Status, ghost reason: string, ghost offline: bool, ghost matched: seq<Bundle>, ghost now: int)
      requires Valid() && (history != [] ==> history[|history| - 1].at <= now) && stored.Some?
      requires Shows(s, offline, matched) && matched != []
      requires Find(s.conditions, Ready) ==
               Some(NewCondition(stored.value.conditions, Ready, ReadyFor(s.state), reason, "", now))
      modifies this
      ensures Valid()
      ensures stored == Some(s) && bundles == matched && history == old(history) + [Sample(ReadyFor(s.state), now)]
    {
      UpdateRecords(stored.value.conditions, s.conditions, Ready, ReadyFor(s.state), reason, "", now, history);
      history, bundles := history + [Sample(ReadyFor(s.state), now)], matched;
      stored := Some(s);
    }

    method Remove(writeFails: bool) returns (outcome: Outcome)
      requires Valid()
      modifies this
      ensures Valid()
      ensures outcome == if writeFails then Failed else Deleted
      ensures outcome == Failed ==> stored == old(stored)
      ensures outcome == Deleted ==> stored == None
    {
      if writeFails {
        return Failed;
      }
      stored, history, bundles := None, [], [];
      return Deleted;
    }
  }
}
