/** The cluster counts of a project: the summaries of its Deployments, added up by state in
    32-bit counters. */
module ClusterCounts {
  import opened ClusterStatus
  import DeploymentStatus

  const MAX_INT32 := 0x7FFF_FFFF

  type Int32 = x: int | -0x8000_0000 <= x <= MAX_INT32

  function Wrapped(x: int): Int32 {
    (x + 0x8000_0000) % 0x1_0000_0000 - 0x8000_0000
  }

  function ToInt32Clamped(i: int): Int32 {
    if i < 0 then 0 else if i > MAX_INT32 then MAX_INT32 else i
  }

  /** One Deployment as the API reports it. */
  datatype Reported = Reported(state: StateType, total: Int32, running: Int32, down: Int32, unknown: Int32)

  /** No state at all is reported as Deploying. */
  function Report(state: StateType, s: DeploymentStatus.Summary): Reported {
    Reported(if state == NoState then Deploying else state,
             ToInt32Clamped(s.total), ToInt32Clamped(s.running), ToInt32Clamped(s.down), ToInt32Clamped(s.unknown))
  }

  datatype Counter = TotalCount | RunningCount | DownCount | DeployingCount | UpdatingCount | TerminatingCount | UnknownCount | ErrorCount

  datatype Counts = Counts(total: Int32, running: Int32, down: Int32, deploying: Int32, updating: Int32,
                           terminating: Int32, unknown: Int32, errored: Int32)
  {
    function Get(c: Counter): Int32 {
      match c
      case TotalCount => total
      case RunningCount => running
      case DownCount => down
      case DeployingCount => deploying
      case UpdatingCount => updating
      case TerminatingCount => terminating
      case UnknownCount => unknown
      case ErrorCount => errored
    }
  }

  // ---------------------------------------------------------------------------
  // Specification: what one Deployment puts into which counter
  // ---------------------------------------------------------------------------

  function Share(d: Reported, c: Counter): Int32 {
    match c
    case TotalCount => d.total
    case ErrorCount => if d.state == Error then d.total else 0
    case TerminatingCount => if d.state == Terminating then d.total else 0
    case RunningCount => if d.state == Error || d.state == Terminating then 0 else d.running
    case DeployingCount => if d.state == Deploying then d.down else 0
    case UpdatingCount => if d.state == Updating then d.down else 0
    case UnknownCount => if d.state == Unknown then d.unknown else 0
    case DownCount => if d.state in {Error, Terminating, Deploying, Updating, Unknown} then 0 else d.down
  }

  /** State by state, the columns running, down, deploying, updating, terminating, unknown and
      error: all clusters count as Error or as Terminating, or the running ones as Running and
      others under the state of the Deployment. */
  lemma EachStateHasItsColumns(d: Reported)
    ensures Share(d, TotalCount) == d.total
    ensures [Share(d, RunningCount), Share(d, DownCount), Share(d, DeployingCount), Share(d, UpdatingCount),
             Share(d, TerminatingCount), Share(d, UnknownCount), Share(d, ErrorCount)] ==
            match d.state
            case Error => [0, 0, 0, 0, 0, 0, d.total]
            case Terminating => [0, 0, 0, 0, d.total, 0, 0]
            case Deploying => [d.running, 0, d.down, 0, 0, 0, 0]
            case Updating => [d.running, 0, 0, d.down, 0, 0, 0]
            case Unknown => [d.running, 0, 0, 0, 0, d.unknown, 0]
            case _ => [d.running, d.down, 0, 0, 0, 0, 0]
  {
  }

  /** A summary is reported as it is, up to the largest 32-bit number. */
  lemma ReportsAre(state: StateType, s: DeploymentStatus.Summary)
    ensures var d := Report(state, s);
            && (state != NoState ==> d.state == state) && (state == NoState ==> d.state == Deploying)
            && (s.total <= 2147483647 ==> d.total == s.total) && (s.running <= 2147483647 ==> d.running == s.running)
            && (s.down <= 2147483647 ==> d.down == s.down) && (s.unknown <= 2147483647 ==> d.unknown == s.unknown)
            && (s.total > 2147483647 ==> d.total == 2147483647) && (s.running > 2147483647 ==> d.running == 2147483647)
            && (s.down > 2147483647 ==> d.down == 2147483647) && (s.unknown > 2147483647 ==> d.unknown == 2147483647)
  {
  }

  ghost function Sum(list: seq<Reported>, c: Counter): int {
    if list == [] then 0 else Sum(list[..|list| - 1], c) + Share(list[|list| - 1], c)
  }

  ghost predicate NonNegative(d: Reported) {
    d.total >= 0 && d.running >= 0 && d.down >= 0 && d.unknown >= 0
  }

  /** A sum that does not fit starts again from zero. */
  function Added(a: Int32, b: Int32): Int32 {
    if Wrapped(a + b) < 0 then 0 else Wrapped(a + b)
  }

  lemma AddedIs(a: Int32, b: Int32)
    requires a >= 0 && b >= 0
    ensures Added(a, b) == if a + b <= MAX_INT32 then a + b else 0
  {
  }

  ghost function Accumulated(list: seq<Reported>, c: Counter): Int32 {
    if list == [] then 0 else Added(Accumulated(list[..|list| - 1], c), Share(list[|list| - 1], c))
  }

  // ---------------------------------------------------------------------------
  // The loop
  // ---------------------------------------------------------------------------

  method AddTo(a: Int32, b: Int32) returns (r: Int32)
    ensures r == Added(a, b) && r >= 0
    ensures a >= 0 && b >= 0 ==> r == if a + b <= MAX_INT32 then a + b else 0
  {
    r := Wrapped(a + b);
    if r < 0 {
      r := 0;
    }
  }

  ghost predicate CountsAreNonNegative(counts: Counts) {
    && counts.total >= 0 && counts.running >= 0 && counts.down >= 0 && counts.deploying >= 0
    && counts.updating >= 0 && counts.terminating >= 0 && counts.unknown >= 0 && counts.errored >= 0
  }

  /** What one turn of the loop does to the running counters. */
  method AddOne(counts: Counts, d: Reported) returns (r: Counts)
    requires CountsAreNonNegative(counts)
    ensures r == Plus(counts, d) && CountsAreNonNegative(r)
  {
    AddingNothing();
    var n := AddTo(counts.total, d.total);
    r := counts.(total := n);
    match d.state {
      case Error =>
        n := AddTo(r.errored, d.total);
        r := r.(errored := n);
      case Terminating =>
        n := AddTo(r.terminating, d.total);
        r := r.(terminating := n);
      case _ =>
        n := AddTo(r.running, d.running);
        r := r.(running := n);
        match d.state {
          case Deploying =>
            n := AddTo(r.deploying, d.down);
            r := r.(deploying := n);
          case Updating =>
            n := AddTo(r.updating, d.down);
            r := r.(updating := n);
          case Unknown =>
            n := AddTo(r.unknown, d.unknown);
            r := r.(unknown := n);
          case _ =>
            n := AddTo(r.down, d.down);
            r := r.(down := n);
        }
    }
  }

  method CountClusters(list: seq<Reported>) returns (counts: Counts)
    ensures Matches(counts, list)
    ensures forall c: Counter :: counts.Get(c) >= 0
  {
    counts := Counts(0, 0, 0, 0, 0, 0, 0, 0);
    for i := 0 to |list|
      invariant CountsAreNonNegative(counts) && Matches(counts, list[..i])
    {
      ghost var before := counts;
      counts := AddOne(counts, list[i]);
      MatchesStep(before, counts, list, i);
    }
    assert list[..|list|] == list;
  }

  ghost predicate Matches(counts: Counts, list: seq<Reported>) {
    forall c: Counter :: counts.Get(c) == Accumulated(list, c)
  }

  function Plus(counts: Counts, d: Reported): Counts {
    Counts(Added(counts.total, Share(d, TotalCount)), Added(counts.running, Share(d, RunningCount)),
           Added(counts.down, Share(d, DownCount)), Added(counts.deploying, Share(d, DeployingCount)),
           Added(counts.updating, Share(d, UpdatingCount)), Added(counts.terminating, Share(d, TerminatingCount)),
           Added(counts.unknown, Share(d, UnknownCount)), Added(counts.errored, Share(d, ErrorCount)))
  }

  lemma AddingNothing()
    ensures forall a: Int32 | a >= 0 :: Added(a, 0) == a
  {
  }

  lemma MatchesStep(before: Counts, after: Counts, list: seq<Reported>, i: nat)
    requires i < |list| && Matches(before, list[..i]) && after == Plus(before, list[i])
    ensures Matches(after, list[..i + 1])
  {
    assert list[..i + 1][..i] == list[..i];
    forall c: Counter ensures after.Get(c) == Added(before.Get(c), Share(list[i], c)) {
    }
  }

  // ---------------------------------------------------------------------------
  // Conservation
  // ---------------------------------------------------------------------------

  lemma {:induction false} SumsGrow(list: seq<Reported>, c: Counter)
    requires forall d | d in list :: NonNegative(d)
    ensures Sum(list, c) >= 0
    ensures list != [] ==> Sum(list[..|list| - 1], c) <= Sum(list, c)
  {
    if list != [] {
      assert list[|list| - 1] in list;
      SumsGrow(list[..|list| - 1], c);
    }
  }

  lemma {:induction false} FittingSumIsKept(list: seq<Reported>, c: Counter)
    requires forall d | d in list :: NonNegative(d)
    requires Sum(list, c) <= MAX_INT32
    ensures Accumulated(list, c) == Sum(list, c)
  {
    if list != [] {
      var rest, last := list[..|list| - 1], list[|list| - 1];
      assert last in list;
      SumsGrow(list, c);
      FittingSumIsKept(rest, c);
      SumsGrow(rest, c);
      AddedIs(Accumulated(rest, c), Share(last, c));
    }
  }

  /** A counter is the plain sum exactly as long as the sum fits. */
  lemma WithoutOverflow(list: seq<Reported>, c: Counter)
    requires forall d | d in list :: NonNegative(d)
    ensures Accumulated(list, c) == Sum(list, c) <==> Sum(list, c) <= MAX_INT32
  {
    if Sum(list, c) <= MAX_INT32 {
      FittingSumIsKept(list, c);
    }
  }

  /** Everything but the total. */
  function Buckets(counts: Counts): int {
    counts.running + counts.down + counts.deploying + counts.updating + counts.terminating + counts.unknown + counts.errored
  }

  /** The parts of a summary are parts of its total. */
  ghost predicate PartsFit(d: Reported) {
    NonNegative(d) && d.running + d.down + d.unknown <= d.total
  }

  function InBuckets(d: Reported): int {
    Share(d, RunningCount) + Share(d, DownCount) + Share(d, DeployingCount) + Share(d, UpdatingCount)
    + Share(d, TerminatingCount) + Share(d, UnknownCount) + Share(d, ErrorCount)
  }

  /** Which Deployments have every cluster in a bucket. */
  lemma EveryClusterInABucketIff(d: Reported)
    requires PartsFit(d)
    ensures InBuckets(d) <= d.total
    ensures InBuckets(d) == d.total <==>
              || d.state in {Error, Terminating}
              || (d.running + d.down + d.unknown == d.total && (if d.state == Unknown then d.down == 0 else d.unknown == 0))
  {
  }

  ghost function InBucketsSum(list: seq<Reported>): int {
    Sum(list, RunningCount) + Sum(list, DownCount) + Sum(list, DeployingCount) + Sum(list, UpdatingCount)
    + Sum(list, TerminatingCount) + Sum(list, UnknownCount) + Sum(list, ErrorCount)
  }

  lemma {:induction false} BucketSums(list: seq<Reported>)
    requires forall d | d in list :: PartsFit(d)
    ensures InBucketsSum(list) <= Sum(list, TotalCount)
    ensures InBucketsSum(list) == Sum(list, TotalCount) <==> forall d | d in list :: InBuckets(d) == d.total
  {
    if list != [] {
      var rest, last := list[..|list| - 1], list[|list| - 1];
      assert last in list;
      BucketSums(rest);
      EveryClusterInABucketIff(last);
      assert InBucketsSum(list) == InBucketsSum(rest) + InBuckets(last);
      assert forall d :: d in list <==> d in rest || d == last;
    }
  }

  /** With a total that fits, the buckets never exceed it, and they make it up exactly when
      every cluster of every Deployment falls into a bucket. */
  lemma BucketsMakeUpTheTotal(list: seq<Reported>, counts: Counts)
    requires forall d | d in list :: PartsFit(d)
    requires Sum(list, TotalCount) <= MAX_INT32
    requires Matches(counts, list)
    ensures counts.total == Sum(list, TotalCount)
    ensures Buckets(counts) <= counts.total
    ensures Buckets(counts) == counts.total <==> forall d | d in list :: InBuckets(d) == d.total
  {
    BucketSums(list);
    forall c: Counter ensures Sum(list, c) >= 0 {
      SumsGrow(list, c);
    }
    forall c: Counter ensures counts.Get(c) == Sum(list, c) {
      WithoutOverflow(list, c);
    }
    assert Buckets(counts) == InBucketsSum(list) by {
      assert counts.Get(RunningCount) == Sum(list, RunningCount) && counts.Get(DownCount) == Sum(list, DownCount);
      assert counts.Get(DeployingCount) == Sum(list, DeployingCount) && counts.Get(UpdatingCount) == Sum(list, UpdatingCount);
      assert counts.Get(TerminatingCount) == Sum(list, TerminatingCount) && counts.Get(UnknownCount) == Sum(list, UnknownCount);
      assert counts.Get(ErrorCount) == Sum(list, ErrorCount);
    }
    assert counts.Get(TotalCount) == Sum(list, TotalCount);
  }

  lemma AccumulatedOfTwo(a: Reported, b: Reported, c: Counter)
    ensures Accumulated([a, b], c) == Added(Added(0, Share(a, c)), Share(b, c))
  {
    assert [a, b][..1] == [a] && [a][..0] == [];
    assert Accumulated([a], c) == Added(0, Share(a, c));
  }

  /** A total that does not fit may end below its buckets. */
  lemma OverflowLosesTheTotal(counts: Counts)
    requires Matches(counts, [Reported(Running, MAX_INT32, MAX_INT32, 0, 0), Reported(Down, 1, 0, 1, 0)])
    ensures counts.total == 0 && counts.running == MAX_INT32 && counts.down == 1
  {
    var a, b := Reported(Running, MAX_INT32, MAX_INT32, 0, 0), Reported(Down, 1, 0, 1, 0);
    AddedIs(0, MAX_INT32);
    AddedIs(MAX_INT32, 1);
    AddedIs(MAX_INT32, 0);
    AddedIs(0, 0);
    AddedIs(0, 1);
    AccumulatedOfTwo(a, b, TotalCount);
    assert counts.Get(TotalCount) == 0;
    AccumulatedOfTwo(a, b, RunningCount);
    assert counts.Get(RunningCount) == MAX_INT32;
    AccumulatedOfTwo(a, b, DownCount);
    assert counts.Get(DownCount) == 1;
  }

  /** What the Deployment controller computes leaves a cluster out of the buckets only when some
      clusters are Unknown while others are Down. */
  lemma ComputedStatusesFillBuckets(s: DeploymentStatus.DeploymentState, t: DeploymentStatus.DeploymentState,
                                    generation: int, env: DeploymentStatus.Env)
    requires DeploymentStatus.StatusUpdated(s, t, generation, env) && DeploymentStatus.StatusReadable(s, env)
    requires !DeploymentStatus.AnyFalse(t.conditions) && |env.clusters| <= MAX_INT32
    requires forall dc | dc in env.clusters :: dc.state in {Running, Down, Unknown}
    ensures var d := Report(t.state, t.summary);
            && PartsFit(d) && d.total == |env.clusters|
            && (InBuckets(d) == d.total <==> !(t.state == Unknown && t.summary.down > 0))
  {
    DeploymentStatus.CountsDecide(env.clusters, generation, env.now);
    EveryClusterInABucketIff(Report(t.state, t.summary));
  }
}
