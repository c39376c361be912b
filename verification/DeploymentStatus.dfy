/** The reconcile loop of a Deployment as far as its status is concerned: conditions,
    generations, the in-progress mark, and the state computed from clusters. */
module DeploymentStatus {
  import opened Deployments
  import opened Conditions
  import opened ClusterStatus

  const READY_WAIT := 10

  datatype Summary = Summary(total: nat, running: nat, down: nat, unknown: nat)

  datatype DeploymentState = DeploymentState(
    state: StateType,
    conditions: seq<Condition>,
    inProgress: bool,
    reconciledGeneration: int,
    summary: Summary)

  /** What the controller reads of a DeploymentCluster; `since` is the transition time of
      its Ready condition. */
  datatype ClusterInfo = ClusterInfo(state: StateType, deadlineExceeded: bool, generations: seq<int>, since: Option<int>)

  // ---------------------------------------------------------------------------
  // The state computed from repositories and clusters
  // ---------------------------------------------------------------------------

  /** Counted as running: every app is at the generation of the Deployment, and the Ready
      condition changed more than READY_WAIT seconds ago. */
  predicate CountsAsRunning(dc: ClusterInfo, generation: int, now: int) {
    && dc.state == Running
    && (forall g | g in dc.generations :: g == generation)
    && dc.since.Some? && now - dc.since.value > READY_WAIT
  }

  ghost predicate Stalled(conditions: seq<Condition>, inProgress: bool, repoStalled: seq<bool>, clusters: seq<ClusterInfo>) {
    || (inProgress && true in repoStalled)
    || (inProgress && HasStatus(conditions, NotStalled, ConditionFalse))
    || exists dc :: dc in clusters && dc.state == Down && dc.deadlineExceeded
  }

  ghost function ComputedState(conditions: seq<Condition>, inProgress: bool, generation: int, repoStalled: seq<bool>,
                               clusters: seq<ClusterInfo>, settled: bool, now: int): StateType {
    if Stalled(conditions, inProgress, repoStalled, clusters) then Error
    else if exists dc :: dc in clusters && dc.state == Unknown then Unknown
    else if clusters == [] then
      if settled || !inProgress then NoTargetClusters else Deploying
    else if exists dc :: dc in clusters && !CountsAsRunning(dc, generation, now) then
      if !inProgress then Down else if generation <= 1 then Deploying else Updating
    else Running
  }

  function RunningCount(clusters: seq<ClusterInfo>, generation: int, now: int): nat {
    if clusters == [] then 0
    else RunningCount(clusters[..|clusters| - 1], generation, now) +
         (if CountsAsRunning(clusters[|clusters| - 1], generation, now) then 1 else 0)
  }

  function DownCount(clusters: seq<ClusterInfo>, generation: int, now: int): nat {
    if clusters == [] then 0
    else
      var dc := clusters[|clusters| - 1];
      DownCount(clusters[..|clusters| - 1], generation, now) +
      (if dc.state == Down || (dc.state == Running && !CountsAsRunning(dc, generation, now)) then 1 else 0)
  }

  function UnknownCount(clusters: seq<ClusterInfo>): nat {
    if clusters == [] then 0
    else UnknownCount(clusters[..|clusters| - 1]) + (if clusters[|clusters| - 1].state == Unknown then 1 else 0)
  }

  function Counted(clusters: seq<ClusterInfo>, generation: int, now: int): Summary {
    Summary(|clusters|, RunningCount(clusters, generation, now), DownCount(clusters, generation, now), UnknownCount(clusters))
  }

  /** The counts decide exactly what the state asks of the clusters. */
  lemma {:induction false} CountsDecide(clusters: seq<ClusterInfo>, generation: int, now: int)
    ensures var s := Counted(clusters, generation, now);
            && (s.unknown > 0 <==> exists dc :: dc in clusters && dc.state == Unknown)
            && s.running + s.down + s.unknown <= s.total
            && (s.running == s.total <==> forall dc | dc in clusters :: CountsAsRunning(dc, generation, now))
            && ((forall dc | dc in clusters :: dc.state in {Running, Down, Unknown}) ==>
                  s.running + s.down + s.unknown == s.total)
  {
    if clusters != [] {
      var rest, last := clusters[..|clusters| - 1], clusters[|clusters| - 1];
      CountsDecide(rest, generation, now);
      assert clusters == rest + [last];
    }
  }

  // ---------------------------------------------------------------------------
  // The Deployment that one reconcile works on
  // ---------------------------------------------------------------------------

  /** What the calls of one reconcile come back with. */
  datatype Env = Env(
    lacksFinalizer: bool,
    urlFails: bool,
    urlChanged: bool,
    cleanupFails: bool,
    dependencyFails: bool,
    repositoryFails: bool,
    gitReposFail: bool,
    listFails: bool,
    jobsUnreadable: bool,
    jobs: map<string, bool>,
    repoStalled: seq<bool>,
    clusters: seq<ClusterInfo>,
    settled: bool,
    patchFails: bool,
    now: int)

  function ConditionOf(ok: bool): CondStatus {
    if ok then ConditionTrue else ConditionFalse
  }

  /** Only the condition of `kind` changed: it has the new status, and its transition time is
      now unless it had that status before. */
  ghost predicate Stamped(before: seq<Condition>, after: seq<Condition>, kind: Kind, ok: bool, now: int) {
    && HasStatus(after, kind, ConditionOf(ok))
    && Find(after, kind).value.since == (if HasStatus(before, kind, ConditionOf(ok)) then Find(before, kind).value.since else now)
    && (forall k | k != kind :: Find(after, k) == Find(before, k))
    && (OnePerKind(before) ==> OnePerKind(after))
  }

  predicate IsNew(conditions: seq<Condition>, kind: Kind, ok: bool, now: int) {
    HasStatus(conditions, kind, ConditionOf(ok)) && Find(conditions, kind).value.since == now
  }

  ghost predicate AnyFalse(conditions: seq<Condition>) {
    exists c :: c in conditions && c.status == ConditionFalse
  }

  predicate Succeeds(env: Env) {
    !env.cleanupFails && !env.dependencyFails && !env.repositoryFails && !env.gitReposFail
  }

  /** The phases of a full run lead from `s` to `t`. */
  ghost predicate Phased(s: DeploymentState, t: DeploymentState, generation: int, env: Env) {
    && t.state == (if s.state == NoState || generation == 1 then Deploying else Updating) && t.inProgress
    && OnePerKind(t.conditions) && Find(t.conditions, NotStalled) == None
    && IsNew(t.conditions, GitSynced, !env.repositoryFails, env.now)
    && IsNew(t.conditions, GitReposUpdated, !env.gitReposFail, env.now)
    && IsNew(t.conditions, Ready, Succeeds(env), env.now)
    && t.reconciledGeneration == (if Succeeds(env) then generation else s.reconciledGeneration)
    && t.summary == s.summary
  }

  predicate StatusReadable(s: DeploymentState, env: Env) {
    !env.listFails && !(s.inProgress && env.jobsUnreadable)
  }

  /** What the git jobs make of the NotStalled condition. */
  ghost predicate StalledUpdated(before: seq<Condition>, after: seq<Condition>, inProgress: bool, env: Env) {
    if !inProgress then after == before
    else if exists j :: j in env.jobs && env.jobs[j] then Stamped(before, after, NotStalled, false, env.now)
    else if |env.jobs| == |env.repoStalled| then Stamped(before, after, NotStalled, true, env.now)
    else after == before
  }

  /** The status update that ends every reconcile leads from `s` to `t`. */
  ghost predicate StatusUpdated(s: DeploymentState, t: DeploymentState, generation: int, env: Env) {
    if !StatusReadable(s, env) then t == s
    else
      && t.reconciledGeneration == s.reconciledGeneration
      && StalledUpdated(s.conditions, t.conditions, s.inProgress, env)
      && if AnyFalse(t.conditions) then
           t.state == InternalError && t.inProgress == s.inProgress && t.summary == s.summary
         else
           && t.state == ComputedState(t.conditions, s.inProgress, generation, env.repoStalled, env.clusters, env.settled, env.now)
           && t.inProgress == (s.inProgress && t.state != Running)
           && t.summary == Counted(env.clusters, generation, env.now)
  }

  lemma HasMember<T>(s: seq<T>)
    ensures s == [] || s[0] in s
  {
  }

  class WorkingDeployment {
    const generation: int
    const deleting: bool
    var state: StateType
    var conditions: seq<Condition>
    var inProgress: bool
    var reconciledGeneration: int
    var summary: Summary

    constructor (generation: int, deleting: bool, s: DeploymentState)
      ensures this.generation == generation && this.deleting == deleting && Value() == s
    {
      this.generation, this.deleting := generation, deleting;
      state, conditions, inProgress := s.state, s.conditions, s.inProgress;
      reconciledGeneration, summary := s.reconciledGeneration, s.summary;
    }

    function Value(): DeploymentState
      reads this
    {
      DeploymentState(state, conditions, inProgress, reconciledGeneration, summary)
    }

    method RemoveCondition(kind: Kind)
      modifies this`conditions
      ensures forall c :: c in conditions <==> c in old(conditions) && c.kind != kind
    {
      var before := conditions;
      conditions := [];
      for i := 0 to |before|
        invariant forall c :: c in conditions <==> c in before[..i] && c.kind != kind
      {
        assert before[..i + 1] == before[..i] + [before[i]];
        if before[i].kind != kind {
          conditions := conditions + [before[i]];
        }
      }
      assert before[..|before|] == before;
    }

    method ReconcileState()
      modifies this
      ensures state == if old(state) == NoState || generation == 1 then Deploying else Updating
      ensures conditions == [] && inProgress
      ensures reconciledGeneration == old(reconciledGeneration) && summary == old(summary)
    {
      state := if state == NoState || generation == 1 then Deploying else Updating;
      ghost var s := state;
      var before := conditions;
      for i := 0 to |before|
        invariant Value() == old(Value()).(state := s, conditions := conditions)
        invariant forall c | c in conditions :: c in before[i..]
      {
        assert before[i..] == [before[i]] + before[i + 1..];
        RemoveCondition(before[i].kind);
      }
      assert before[|before|..] == [];
      HasMember(conditions);
      inProgress := true;
    }

    method SetCondition(kind: Kind, ok: bool, now: int)
      modifies this`conditions
      ensures Stamped(old(conditions), conditions, kind, ok, now)
    {
      conditions := UpdateStatusCondition(conditions, kind, ConditionOf(ok),
                                          if ok then "Success" else "Failed", "", now);
    }

    /** The end of reconcile: Ready says whether every phase went well. */
    method ConcludePhases(ok: bool, now: int)
      modifies this`conditions, this`reconciledGeneration
      ensures Stamped(old(conditions), conditions, Ready, ok, now)
      ensures reconciledGeneration == if ok then generation else old(reconciledGeneration)
    {
      if ok {
        reconciledGeneration := generation;
      }
      SetCondition(Ready, ok, now);
    }

    /** The phases of reconcile, in order; a failed one does not stop the others. */
    method RunPhases(env: Env)
      modifies this
      ensures Phased(old(Value()), Value(), generation, env)
    {
      ReconcileState();
      var ok := !env.cleanupFails && !env.dependencyFails;
      SetCondition(GitSynced, !env.repositoryFails, env.now);
      ok := ok && !env.repositoryFails;
      ghost var synced := conditions;
      SetCondition(GitReposUpdated, !env.gitReposFail, env.now);
      ok := ok && !env.gitReposFail;
      ghost var updated := conditions;
      assert Find(updated, GitSynced) == Find(synced, GitSynced) && Find(updated, NotStalled) == None;
      ConcludePhases(ok, env.now);
    }

    /** The NotStalled condition follows the git jobs, while the Deployment is in progress. */
    method UpdateStalled(env: Env)
      modifies this`conditions
      ensures StalledUpdated(old(conditions), conditions, inProgress, env)
    {
      if inProgress {
        var succeed := true;
        var todo := env.jobs.Keys;
        while todo != {}
          invariant todo <= env.jobs.Keys
          invariant succeed <==> forall j | j in env.jobs && j !in todo :: !env.jobs[j]
          decreases todo
        {
          var j :| j in todo;
          if env.jobs[j] {
            succeed := false;
          }
          todo := todo - {j};
        }
        if !succeed {
          SetCondition(NotStalled, false, env.now);
        } else if |env.repoStalled| == |env.jobs| {
          SetCondition(NotStalled, true, env.now);
        }
      }
    }

    method AtGeneration(generations: seq<int>) returns (ready: bool)
      ensures ready <==> forall g | g in generations :: g == generation
    {
      ready := true;
      for j := 0 to |generations|
        invariant ready ==> forall g | g in generations[..j] :: g == generation
        invariant !ready ==> exists g :: g in generations && g != generation
      {
        assert generations[..j + 1] == generations[..j] + [generations[j]];
        if generations[j] != generation {
          assert generations[j] in generations;
          ready := false;
        }
      }
      assert generations[..|generations|] == generations;
    }

    method CountClusters(env: Env) returns (counts: Summary, stalled: bool)
      ensures counts == Counted(env.clusters, generation, env.now)
      ensures stalled <==> exists dc :: dc in env.clusters && dc.state == Down && dc.deadlineExceeded
    {
      counts, stalled := Summary(|env.clusters|, 0, 0, 0), false;
      for i := 0 to |env.clusters|
        invariant counts == Counted(env.clusters[..i], generation, env.now).(total := |env.clusters|)
        invariant stalled <==> exists dc :: dc in env.clusters[..i] && dc.state == Down && dc.deadlineExceeded
      {
        var dc := env.clusters[i];
        assert env.clusters[..i + 1][..i] == env.clusters[..i];
        assert env.clusters[..i + 1] == env.clusters[..i] + [dc];
        match dc.state {
          case Unknown =>
            counts := counts.(unknown := counts.unknown + 1);
          case Down =>
            counts := counts.(down := counts.down + 1);
            stalled := stalled || dc.deadlineExceeded;
          case Running =>
            var ready := AtGeneration(dc.generations);
            if dc.since.None? || env.now - dc.since.value <= READY_WAIT {
              ready := false;
            }
            if ready {
              counts := counts.(running := counts.running + 1);
            } else {
              counts := counts.(down := counts.down + 1);
            }
          case _ =>
        }
      }
      assert env.clusters[..|env.clusters|] == env.clusters;
    }

    method UpdateDeploymentStatus(env: Env)
      modifies this
      ensures state == ComputedState(conditions, old(inProgress), generation, env.repoStalled, env.clusters, env.settled, env.now)
      ensures inProgress == (old(inProgress) && state != Running)
      ensures summary == Counted(env.clusters, generation, env.now)
      ensures conditions == old(conditions) && reconciledGeneration == old(reconciledGeneration)
    {
      var stalled := false;
      for i := 0 to |env.repoStalled|
        invariant stalled <==> inProgress && true in env.repoStalled[..i]
      {
        assert env.repoStalled[..i + 1] == env.repoStalled[..i] + [env.repoStalled[i]];
        if inProgress && env.repoStalled[i] {
          stalled := true;
        }
      }
      assert env.repoStalled[..|env.repoStalled|] == env.repoStalled;
      if inProgress && HasStatus(conditions, NotStalled, ConditionFalse) {
        stalled := true;
      }
      var counts, deadline := CountClusters(env);
      stalled := stalled || deadline;
      CountsDecide(env.clusters, generation, env.now);
      if stalled {
        state := Error;
      } else if counts.unknown > 0 {
        state := Unknown;
      } else if counts.total == 0 {
        state := if env.settled then NoTargetClusters else if inProgress then Deploying else NoTargetClusters;
      } else if counts.down > 0 || counts.total > counts.running {
        state := if inProgress then (if generation <= 1 then Deploying else Updating) else Down;
      } else {
        state := Running;
        inProgress := false;
      }
      summary := counts;
    }

    method UpdateStatus(env: Env)
      modifies this
      ensures deleting ==> Value() == old(Value()).(state := Terminating)
      ensures !deleting ==> StatusUpdated(old(Value()), Value(), generation, env)
    {
      if deleting {
        state := Terminating;
        return;
      }
      if env.listFails || (inProgress && env.jobsUnreadable) {
        return;
      }
      UpdateStalled(env);
      for i := 0 to |conditions|
        invariant forall j | 0 <= j < i :: conditions[j].status != ConditionFalse
      {
        if conditions[i].status == ConditionFalse {
          assert conditions[i] in conditions;
          state := InternalError;
          return;
        }
      }
      UpdateDeploymentStatus(env);
    }
  }

  // ---------------------------------------------------------------------------
  // Whole reconciles and whole runs
  // ---------------------------------------------------------------------------

  /** Nothing in the Spec changed since the last successful run. */
  predicate UpToDate(s: DeploymentState, generation: int, env: Env) {
    HasStatus(s.conditions, Ready, ConditionTrue) && !env.urlChanged && s.reconciledGeneration == generation
  }

  predicate RunsPhases(s: DeploymentState, generation: int, env: Env) {
    !env.lacksFinalizer && !env.urlFails && !UpToDate(s, generation, env)
  }

  /** The status that a reconcile has worked out when it comes to patching it. */
  ghost predicate WorkedOut(s: DeploymentState, t: DeploymentState, generation: int, env: Env) {
    if RunsPhases(s, generation, env) then
      exists mid :: Phased(s, mid, generation, env) && StatusUpdated(mid, t, generation, env)
    else StatusUpdated(s, t, generation, env)
  }

  ghost predicate Reconciled(s: DeploymentState, t: DeploymentState, generation: int, env: Env) {
    if env.patchFails then t == s else WorkedOut(s, t, generation, env)
  }

  /** The stored Deployment, and the generation that the last run of all phases saw. */
  datatype Stored = Stored(status: DeploymentState, generation: int, deleting: bool, lastRun: int)

  const FRESH := DeploymentState(NoState, [], false, 0, Summary(0, 0, 0, 0))

  /** The status can be trusted: it says in progress exactly when it should, and Ready only
      for the Spec of the last full run. */
  ghost predicate Consistent(s: DeploymentState, generation: int, lastRun: int) {
    && (s.state in {Running, Down} ==> !s.inProgress)
    && (s.state in {Deploying, Updating} ==> s.inProgress)
    && (HasStatus(s.conditions, NotStalled, ConditionFalse) ==> s.inProgress)
    && (HasStatus(s.conditions, Ready, ConditionTrue) ==>
          && HasStatus(s.conditions, GitSynced, ConditionTrue)
          && HasStatus(s.conditions, GitReposUpdated, ConditionTrue)
          && s.reconciledGeneration == lastRun)
    && s.reconciledGeneration <= lastRun <= generation
    && s.state != Terminating && OnePerKind(s.conditions)
  }

  lemma PhasesKeepConsistent(s: DeploymentState, t: DeploymentState, generation: int, lastRun: int, env: Env)
    requires Consistent(s, generation, lastRun) && Phased(s, t, generation, env)
    ensures Consistent(t, generation, generation)
  {
  }

  lemma StatusUpdateKeepsConsistent(s: DeploymentState, t: DeploymentState, generation: int, lastRun: int, env: Env)
    requires Consistent(s, generation, lastRun) && StatusUpdated(s, t, generation, env)
    ensures Consistent(t, generation, lastRun)
  {
    FindGivesAMember(t.conditions, NotStalled);
    assert forall k | k != NotStalled :: Find(t.conditions, k) == Find(s.conditions, k);
  }

  lemma ReconcileKeepsConsistent(s: DeploymentState, t: DeploymentState, generation: int, lastRun: int, env: Env)
    requires Consistent(s, generation, lastRun) && Reconciled(s, t, generation, env)
    ensures Consistent(t, generation, if RunsPhases(s, generation, env) && !env.patchFails then generation else lastRun)
  {
    if !env.patchFails {
      if RunsPhases(s, generation, env) {
        var mid :| Phased(s, mid, generation, env) && StatusUpdated(mid, t, generation, env);
        PhasesKeepConsistent(s, mid, generation, lastRun, env);
        StatusUpdateKeepsConsistent(mid, t, generation, generation, env);
      } else {
        StatusUpdateKeepsConsistent(s, t, generation, lastRun, env);
      }
    }
  }

  class DeploymentController {
    var status: DeploymentState
    var generation: int
    /** The deletion timestamp is set. */
    var deleting: bool
    ghost var lastRun: int

    ghost predicate Valid()
      reads this
    {
      Consistent(status, generation, lastRun)
    }

    constructor ()
      ensures Valid() && status == FRESH && generation == 1 && !deleting
    {
      status, generation, deleting, lastRun := FRESH, 1, false, 0;
    }

    /** The API server counts the changes of the Spec. */
    method ChangeSpec()
      requires Valid()
      modifies this`generation
      ensures Valid() && generation == old(generation) + 1
    {
      generation := generation + 1;
    }

    /** Setting the deletion timestamp counts as well. */
    method Delete()
      requires Valid()
      modifies this`generation, this`deleting
      ensures Valid() && deleting && generation == if old(deleting) then old(generation) else old(generation) + 1
    {
      generation := if deleting then generation else generation + 1;
      deleting := true;
    }

    method Reconcile(env: Env)
      requires Valid()
      modifies this`status, this`lastRun
      ensures Valid()
      ensures deleting ==> status == old(status) && lastRun == old(lastRun)
      ensures !deleting ==>
                && Reconciled(old(status), status, generation, env)
                && lastRun == if RunsPhases(old(status), generation, env) && !env.patchFails then generation else old(lastRun)
    {
      var next := WorkOut(env);
      if !env.patchFails {
        if !deleting {
          ReconcileKeepsConsistent(status, next, generation, lastRun, env);
          lastRun := if RunsPhases(status, generation, env) then generation else lastRun;
        }
        status := next;
      }
    }

    /** The status at the time of the patch.  A Deployment marked for deletion goes through the
        finalizers only, and is patched before the status is updated. */
    method WorkOut(env: Env) returns (next: DeploymentState)
      ensures deleting ==> next == status
      ensures !deleting ==> WorkedOut(status, next, generation, env)
    {
      var d := new WorkingDeployment(generation, deleting, status);
      ghost var mid := d.Value();
      if !deleting && !env.lacksFinalizer && !env.urlFails && !UpToDate(status, generation, env) {
        d.RunPhases(env);
        mid := d.Value();
      }
      if deleting {
        return d.Value();
      }
      d.UpdateStatus(env);
      next := d.Value();
      assert StatusUpdated(mid, next, generation, env);
    }
  }

  datatype Event = Reconciliation(env: Env) | SpecChange | Deletion

  ghost predicate Next(s: Stored, t: Stored, event: Event) {
    match event
    case SpecChange => t == s.(generation := s.generation + 1)
    case Deletion => t == if s.deleting then s else s.(deleting := true, generation := s.generation + 1)
    case Reconciliation(env) =>
      if s.deleting then t == s
      else
        && t.generation == s.generation && !t.deleting
        && Reconciled(s.status, t.status, s.generation, env)
        && t.lastRun == if RunsPhases(s.status, s.generation, env) && !env.patchFails then s.generation else s.lastRun
  }

  ghost predicate IsRun(run: seq<Stored>, events: seq<Event>) {
    && |run| == |events| + 1
    && run[0] == Stored(FRESH, 1, false, 0)
    && forall i, j | 0 <= i && j == i + 1 < |run| :: Next(run[i], run[j], events[i])
  }

  /** Whatever fails in between, every state of every run is consistent, also after the Deployment
      was marked for deletion; in particular none is Terminating. */
  lemma {:induction false} RunsStayConsistent(run: seq<Stored>, events: seq<Event>, i: nat)
    requires IsRun(run, events) && i < |run|
    ensures Consistent(run[i].status, run[i].generation, run[i].lastRun)
  {
    if i > 0 {
      var s, t := run[i - 1], run[i];
      RunsStayConsistent(run, events, i - 1);
      assert Next(s, t, events[i - 1]);
      match events[i - 1]
      case SpecChange =>
      case Deletion =>
      case Reconciliation(env) =>
        if !s.deleting {
          ReconcileKeepsConsistent(s.status, t.status, s.generation, s.lastRun, env);
        }
    }
  }

  /** A reconcile leaves the phases out only if the last full run was for the present Spec and
      went well, except when the finalizer is missing or the repository URL is unknown. */
  lemma SkippedRunsAreUpToDate(run: seq<Stored>, events: seq<Event>, i: nat, env: Env)
    requires IsRun(run, events) && i < |run| && !env.lacksFinalizer && !env.urlFails
    requires !RunsPhases(run[i].status, run[i].generation, env)
    ensures run[i].lastRun == run[i].generation && !env.urlChanged
    ensures forall k | k in {Ready, GitSynced, GitReposUpdated} :: HasStatus(run[i].status.conditions, k, ConditionTrue)
  {
    RunsStayConsistent(run, events, i);
  }

  lemma OthersAreKept(s: DeploymentState, t: DeploymentState, generation: int, env: Env)
    requires StatusUpdated(s, t, generation, env)
    ensures t.reconciledGeneration == s.reconciledGeneration
    ensures forall k | k != NotStalled :: Find(t.conditions, k) == Find(s.conditions, k)
  {
  }

  /** After a full run that went well, the next reconcile for the same Spec and URL leaves the
      phases out: what they have recorded stays as it is. */
  lemma GoodRunsAreNotRepeated(s: DeploymentState, t: DeploymentState, u: DeploymentState, generation: int, env: Env, next: Env)
    requires WorkedOut(s, t, generation, env) && RunsPhases(s, generation, env) && Succeeds(env)
    requires WorkedOut(t, u, generation, next) && !next.urlChanged
    ensures t.reconciledGeneration == u.reconciledGeneration == generation
    ensures forall k | k != NotStalled :: Find(u.conditions, k) == Find(t.conditions, k)
    ensures HasStatus(u.conditions, Ready, ConditionTrue)
  {
    var mid :| Phased(s, mid, generation, env) && StatusUpdated(mid, t, generation, env);
    OthersAreKept(mid, t, generation, env);
    assert UpToDate(t, generation, next);
    OthersAreKept(t, u, generation, next);
  }

  /** A changed Spec, a changed URL or a failed run, on the other hand, is always taken up by the
      next reconcile that gets as far as the phases. */
  lemma ChangesAreTakenUp(run: seq<Stored>, events: seq<Event>, i: nat, t: DeploymentState, env: Env)
    requires IsRun(run, events) && i < |run| && WorkedOut(run[i].status, t, run[i].generation, env)
    requires !env.lacksFinalizer && !env.urlFails
    requires run[i].lastRun != run[i].generation || env.urlChanged || !HasStatus(run[i].status.conditions, Ready, ConditionTrue)
    ensures IsNew(t.conditions, GitSynced, !env.repositoryFails, env.now)
    ensures IsNew(t.conditions, GitReposUpdated, !env.gitReposFail, env.now)
    ensures IsNew(t.conditions, Ready, Succeeds(env), env.now)
    ensures Succeeds(env) ==> t.reconciledGeneration == run[i].generation
  {
    var s, generation := run[i].status, run[i].generation;
    RunsStayConsistent(run, events, i);
    var mid :| Phased(s, mid, generation, env) && StatusUpdated(mid, t, generation, env);
    OthersAreKept(mid, t, generation, env);
  }

  // ---------------------------------------------------------------------------
  // What the controller reads of clusters
  // ---------------------------------------------------------------------------

  function Generations(apps: seq<App>): seq<int> {
    seq(|apps|, i requires 0 <= i < |apps| => apps[i].generation)
  }

  /** What the Deployment controller reads of a stored DeploymentCluster status. */
  function InfoOf(s: Status, deadlineExceeded: bool): ClusterInfo {
    ClusterInfo(s.state, deadlineExceeded, Generations(s.apps),
                match Find(s.conditions, Ready) case Some(c) => Some(c.since) case None => None)
  }

  /** A cluster as its controller left it, with what that controller saw. */
  datatype Observed = Observed(status: Status, history: seq<Sample>, bundles: seq<Bundle>, deadlineExceeded: bool)

  ghost predicate AreObserved(clusters: seq<ClusterInfo>, observed: seq<Observed>) {
    && |clusters| == |observed|
    && forall i | 0 <= i < |clusters| ::
         && clusters[i] == InfoOf(observed[i].status, observed[i].deadlineExceeded)
         && RecordOf(observed[i].status, observed[i].history, observed[i].bundles)
  }

  /** Every bundle runs at the generation, and since more than READY_WAIT seconds every
      reconcile of the cluster found it ready. */
  ghost predicate RunsSteadily(o: Observed, generation: int, now: int) {
    && o.bundles != [] && o.history != []
    && (forall bd | bd in o.bundles :: BundleState(bd) == Running && bd.generation == generation)
    && exists k | 0 <= k < |o.history| ::
         && now - o.history[k].at > READY_WAIT
         && forall i | k <= i < |o.history| :: o.history[i].status == ConditionTrue
  }

  lemma CountedClusterRunsSteadily(o: Observed, generation: int, now: int)
    requires RecordOf(o.status, o.history, o.bundles)
    requires CountsAsRunning(InfoOf(o.status, o.deadlineExceeded), generation, now)
    ensures RunsSteadily(o, generation, now)
  {
    StretchIsUniform(o.history);
    forall bd | bd in o.bundles ensures BundleState(bd) == Running && bd.generation == generation {
      var i :| 0 <= i < |o.bundles| && o.bundles[i] == bd;
      assert o.status.apps[i] == AppOf(bd);
      assert Generations(o.status.apps)[i] in Generations(o.status.apps);
    }
    assert now - o.history[StretchStart(o.history)].at > READY_WAIT;
  }

  // ---------------------------------------------------------------------------
  // Exactly when each state is found
  // ---------------------------------------------------------------------------

  lemma {:induction false} MemberIsFound(conds: seq<Condition>, c: Condition)
    requires OnePerKind(conds) && c in conds
    ensures Find(conds, c.kind) == Some(c)
  {
    if conds[0] != c {
      assert conds == [conds[0]] + conds[1..];
      MemberIsFound(conds[1..], c);
      var i :| 0 <= i < |conds| && conds[i] == c;
      assert conds[0].kind != conds[i].kind;
    }
  }

  lemma AnyFalseIff(conds: seq<Condition>)
    requires OnePerKind(conds)
    ensures AnyFalse(conds) <==> exists k :: HasStatus(conds, k, ConditionFalse)
  {
    if c :| c in conds && c.status == ConditionFalse {
      MemberIsFound(conds, c);
      assert HasStatus(conds, c.kind, ConditionFalse);
    }
    if k :| HasStatus(conds, k, ConditionFalse) {
      FindGivesAMember(conds, k);
    }
  }

  /** InternalError: a phase has failed, or a git job has while the Deployment is in progress; an
      earlier failed job counts until all jobs have succeeded. */
  lemma InternalErrorIff(s: DeploymentState, t: DeploymentState, generation: int, env: Env)
    requires StatusUpdated(s, t, generation, env) && StatusReadable(s, env) && OnePerKind(s.conditions)
    ensures t.state == InternalError <==>
              || (exists k :: k != NotStalled && HasStatus(s.conditions, k, ConditionFalse))
              || (if s.inProgress && exists j :: j in env.jobs && env.jobs[j] then true
                  else HasStatus(s.conditions, NotStalled, ConditionFalse) && !(s.inProgress && |env.jobs| == |env.repoStalled|))
    ensures t.state == InternalError <==> AnyFalse(t.conditions)
  {
    AnyFalseIff(t.conditions);
    assert forall k | k != NotStalled :: HasStatus(t.conditions, k, ConditionFalse) == HasStatus(s.conditions, k, ConditionFalse);
  }

  /** Error: otherwise, a repository stalls while the Deployment is in progress, or a cluster that
      is Down has exceeded its deadline. */
  lemma ErrorIff(s: DeploymentState, t: DeploymentState, generation: int, env: Env)
    requires StatusUpdated(s, t, generation, env) && StatusReadable(s, env)
    ensures t.state == Error <==>
              && !AnyFalse(t.conditions)
              && ((s.inProgress && true in env.repoStalled)
                  || exists dc :: dc in env.clusters && dc.state == Down && dc.deadlineExceeded)
  {
    FindGivesAMember(t.conditions, NotStalled);
  }

  ghost predicate NoFailure(s: DeploymentState, t: DeploymentState, env: Env) {
    && !AnyFalse(t.conditions) && !(s.inProgress && true in env.repoStalled)
    && forall dc | dc in env.clusters :: !(dc.state == Down && dc.deadlineExceeded)
  }

  /** Unknown: otherwise, a cluster is. */
  lemma UnknownIff(s: DeploymentState, t: DeploymentState, generation: int, env: Env)
    requires StatusUpdated(s, t, generation, env) && StatusReadable(s, env)
    ensures t.state == Unknown <==> NoFailure(s, t, env) && exists dc :: dc in env.clusters && dc.state == Unknown
  {
    FindGivesAMember(t.conditions, NotStalled);
  }

  /** NoTargetClusters: there are none, and either enough time has passed since the Deployment
      was created or it is not in progress. */
  lemma NoTargetClustersIff(s: DeploymentState, t: DeploymentState, generation: int, env: Env)
    requires StatusUpdated(s, t, generation, env) && StatusReadable(s, env)
    ensures t.state == NoTargetClusters <==> NoFailure(s, t, env) && env.clusters == [] && (env.settled || !s.inProgress)
  {
    FindGivesAMember(t.conditions, NotStalled);
  }

  /** Steady clusters make the Deployment Running, unless a repository stalls or a condition is
      False; nothing else does. */
  lemma RunningIff(s: DeploymentState, t: DeploymentState, generation: int, env: Env)
    requires StatusUpdated(s, t, generation, env) && StatusReadable(s, env)
    ensures t.state == Running <==>
              && !AnyFalse(t.conditions) && !(s.inProgress && true in env.repoStalled)
              && env.clusters != []
              && forall dc | dc in env.clusters ::
                   dc.state == Running && (forall g | g in dc.generations :: g == generation)
                   && dc.since.Some? && env.now - dc.since.value > 10
  {
    FindGivesAMember(t.conditions, NotStalled);
  }

  /** Some cluster does not run steadily, but none is Unknown and nothing has failed. */
  ghost predicate NotAllSteady(s: DeploymentState, t: DeploymentState, generation: int, env: Env) {
    && NoFailure(s, t, env)
    && (forall dc | dc in env.clusters :: dc.state != Unknown)
    && exists dc :: dc in env.clusters && !CountsAsRunning(dc, generation, env.now)
  }

  /** Down: so it is outside a deployment in progress. */
  lemma DownIff(s: DeploymentState, t: DeploymentState, generation: int, env: Env)
    requires StatusUpdated(s, t, generation, env) && StatusReadable(s, env)
    ensures t.state == Down <==> NotAllSteady(s, t, generation, env) && !s.inProgress
  {
    FindGivesAMember(t.conditions, NotStalled);
  }

  /** Updating: so it is in progress, for a later generation than the first. */
  lemma UpdatingIff(s: DeploymentState, t: DeploymentState, generation: int, env: Env)
    requires StatusUpdated(s, t, generation, env) && StatusReadable(s, env)
    ensures t.state == Updating <==> NotAllSteady(s, t, generation, env) && s.inProgress && generation > 1
  {
    FindGivesAMember(t.conditions, NotStalled);
  }

  /** Deploying: the same for the first generation, or it is too early to miss the clusters. */
  lemma DeployingIff(s: DeploymentState, t: DeploymentState, generation: int, env: Env)
    requires StatusUpdated(s, t, generation, env) && StatusReadable(s, env)
    ensures t.state == Deploying <==>
              && s.inProgress
              && ((NotAllSteady(s, t, generation, env) && generation <= 1)
                  || (NoFailure(s, t, env) && env.clusters == [] && !env.settled))
  {
    FindGivesAMember(t.conditions, NotStalled);
  }

  /** A run of all phases ends in InternalError exactly if one of them or a git job failed.  When
      the status cannot be read afterwards, the state says whether this is the first
      deployment or an update. */
  lemma FullRunsReportFailures(s: DeploymentState, t: DeploymentState, generation: int, env: Env)
    requires WorkedOut(s, t, generation, env) && RunsPhases(s, generation, env)
    ensures !env.listFails && !env.jobsUnreadable ==>
              (t.state == InternalError <==>
                 env.cleanupFails || env.dependencyFails || env.repositoryFails || env.gitReposFail
                 || exists j :: j in env.jobs && env.jobs[j])
    ensures env.listFails || env.jobsUnreadable ==>
              t.inProgress && t.state == if s.state == NoState || generation == 1 then Deploying else Updating
  {
    var mid :| Phased(s, mid, generation, env) && StatusUpdated(mid, t, generation, env);
    if StatusReadable(mid, env) {
      InternalErrorIff(mid, t, generation, env);
      assert HasStatus(mid.conditions, Ready, ConditionFalse) <==> !Succeeds(env);
      assert HasStatus(mid.conditions, GitSynced, ConditionFalse) <==> env.repositoryFails;
      assert HasStatus(mid.conditions, GitReposUpdated, ConditionFalse) <==> env.gitReposFail;
    }
  }

  /** The clusters in one of the three counts, by their places in the list. */
  function RunningOnes(clusters: seq<ClusterInfo>, n: nat, generation: int, now: int): set<nat> {
    set i: nat | i < n && i < |clusters| && CountsAsRunning(clusters[i], generation, now)
  }

  function DownOnes(clusters: seq<ClusterInfo>, n: nat, generation: int, now: int): set<nat> {
    set i: nat | i < n && i < |clusters| &&
      (clusters[i].state == Down || (clusters[i].state == Running && !CountsAsRunning(clusters[i], generation, now)))
  }

  function UnknownOnes(clusters: seq<ClusterInfo>, n: nat): set<nat> {
    set i: nat | i < n && i < |clusters| && clusters[i].state == Unknown
  }

  lemma {:induction false} RunningCountIs(clusters: seq<ClusterInfo>, n: nat, generation: int, now: int)
    requires n <= |clusters|
    ensures RunningCount(clusters[..n], generation, now) == |RunningOnes(clusters, n, generation, now)|
  {
    if n == 0 {
      assert RunningOnes(clusters, n, generation, now) == {};
    } else {
      var m: nat := n - 1;
      RunningCountIs(clusters, m, generation, now);
      assert clusters[..n][..m] == clusters[..m];
      var more: set<nat> := if m in RunningOnes(clusters, n, generation, now) then {m} else {};
      assert RunningOnes(clusters, n, generation, now) == RunningOnes(clusters, m, generation, now) + more;
    }
  }

  lemma {:induction false} DownCountIs(clusters: seq<ClusterInfo>, n: nat, generation: int, now: int)
    requires n <= |clusters|
    ensures DownCount(clusters[..n], generation, now) == |DownOnes(clusters, n, generation, now)|
  {
    if n == 0 {
      assert DownOnes(clusters, n, generation, now) == {};
    } else {
      var m: nat := n - 1;
      DownCountIs(clusters, m, generation, now);
      assert clusters[..n][..m] == clusters[..m];
      var more: set<nat> := if m in DownOnes(clusters, n, generation, now) then {m} else {};
      assert DownOnes(clusters, n, generation, now) == DownOnes(clusters, m, generation, now) + more;
    }
  }

  lemma {:induction false} UnknownCountIs(clusters: seq<ClusterInfo>, n: nat)
    requires n <= |clusters|
    ensures UnknownCount(clusters[..n]) == |UnknownOnes(clusters, n)|
  {
    if n == 0 {
      assert UnknownOnes(clusters, n) == {};
    } else {
      var m: nat := n - 1;
      UnknownCountIs(clusters, m);
      assert clusters[..n][..m] == clusters[..m];
      var more: set<nat> := if m in UnknownOnes(clusters, n) then {m} else {};
      assert UnknownOnes(clusters, n) == UnknownOnes(clusters, m) + more;
    }
  }

  /** The summary of a computed status counts clusters: all of them, those that run steadily, the
      Down ones with the running ones that are not steady yet, and the Unknown ones. */
  lemma SummaryCounts(s: DeploymentState, t: DeploymentState, generation: int, env: Env)
    requires StatusUpdated(s, t, generation, env) && StatusReadable(s, env) && !AnyFalse(t.conditions)
    ensures var n := |env.clusters|;
            t.summary == Summary(n, |RunningOnes(env.clusters, n, generation, env.now)|,
                                 |DownOnes(env.clusters, n, generation, env.now)|, |UnknownOnes(env.clusters, n)|)
  {
    RunningCountIs(env.clusters, |env.clusters|, generation, env.now);
    DownCountIs(env.clusters, |env.clusters|, generation, env.now);
    UnknownCountIs(env.clusters, |env.clusters|);
    assert env.clusters[..|env.clusters|] == env.clusters;
  }

  // ---------------------------------------------------------------------------
  // Running is sound
  // ---------------------------------------------------------------------------

  /** A Deployment is found Running only when it has clusters and all of them run steadily. */
  lemma RunningIsSound(s: DeploymentState, t: DeploymentState, generation: int, env: Env, observed: seq<Observed>)
    requires WorkedOut(s, t, generation, env) && t.state == Running
    requires !env.listFails && !env.jobsUnreadable
    requires AreObserved(env.clusters, observed)
    ensures observed != []
    ensures forall o | o in observed :: RunsSteadily(o, generation, env.now)
  {
    var mid := s;
    if RunsPhases(s, generation, env) {
      mid :| Phased(s, mid, generation, env) && StatusUpdated(mid, t, generation, env);
    }
    RunningIff(mid, t, generation, env);
    forall o | o in observed ensures RunsSteadily(o, generation, env.now) {
      var i :| 0 <= i < |observed| && observed[i] == o;
      assert env.clusters[i] in env.clusters;
      CountedClusterRunsSteadily(o, generation, env.now);
    }
  }
}
