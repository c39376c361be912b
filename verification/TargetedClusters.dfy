/** Explicitly targeted clusters: how a request becomes the target list of an application,
    and how a parent's targets reach its child Deployments. */
module TargetedClusters {
  import opened Deployments

  type Labels = map<string, string>

  const CLUSTER_NAME := "edge-orchestrator.intel.com/clustername"

  /** The cluster a label set names; a missing label reads as the empty string. */
  function ClusterOf(labels: Labels): string {
    if CLUSTER_NAME in labels then labels[CLUSTER_NAME] else ""
  }

  function ClustersOf(list: seq<Labels>): seq<string> {
    seq(|list|, i requires 0 <= i < |list| => ClusterOf(list[i]))
  }

  // ---------------------------------------------------------------------------
  // createDeploymentCr: the label maps of the request are written in place
  // ---------------------------------------------------------------------------

  /** A label map as the request refers to it. */
  class LabelMap {
    var labels: Labels

    constructor (labels: Labels)
      ensures this.labels == labels
    {
      this.labels := labels;
    }
  }

  datatype TargetCluster = TargetCluster(appName: string, clusterId: string, labels: LabelMap?)

  /** The value of one request entry before anything is written. */
  datatype Request = Request(clusterId: string, labels: Labels)

  /** What one request entry does: a cluster that is in the list already gets the labels
      merged into its entry, any other one a new entry at the end. */
  ghost function Placed(list: seq<Labels>, r: Request): seq<Labels> {
    var labels := r.labels[CLUSTER_NAME := r.clusterId];
    var i := IndexOf(ClustersOf(list), r.clusterId);
    if r.clusterId != "" && i < |list| then list[i := list[i] + labels] else list + [labels]
  }

  /** The first position of `c`, or the length if there is none. */
  ghost function IndexOf(names: seq<string>, c: string): (i: nat)
    ensures i <= |names| && (i < |names| ==> names[i] == c)
    ensures forall j | 0 <= j < i :: names[j] != c
  {
    if names == [] || names[0] == c then 0 else 1 + IndexOf(names[1..], c)
  }

  ghost function PlacedAll(requests: seq<Request>): seq<Labels> {
    if requests == [] then [] else Placed(PlacedAll(requests[..|requests| - 1]), requests[|requests| - 1])
  }

  /** The entries of the request as values. */
  datatype Entry = Entry(appName: string, clusterId: string, labels: Option<Labels>)

  ghost function Snapshot(requested: seq<TargetCluster>): seq<Entry>
    reads set t | t in requested && t.labels != null :: t.labels
  {
    seq(|requested|, i requires 0 <= i < |requested|
                     reads set t | t in requested && t.labels != null :: t.labels =>
      var t := requested[i];
      Entry(t.appName, t.clusterId, if t.labels == null then None else Some(t.labels.labels)))
  }

  ghost function RequestsFor(app: string, entries: seq<Entry>): seq<Request> {
    if entries == [] then []
    else
      var last := entries[|entries| - 1];
      RequestsFor(app, entries[..|entries| - 1]) +
      (if last.appName == app && last.labels.Some? then [Request(last.clusterId, last.labels.value)] else [])
  }

  ghost function TargetsOf(app: string, entries: seq<Entry>): seq<Labels> {
    PlacedAll(RequestsFor(app, entries))
  }

  ghost function Values(maps: seq<LabelMap>): seq<Labels>
    reads maps
  {
    seq(|maps|, i requires 0 <= i < |maps| reads maps => maps[i].labels)
  }

  /** No label map is used by two entries. */
  ghost predicate OwnMaps(requested: seq<TargetCluster>) {
    forall i, j | 0 <= i < j < |requested| && requested[i].labels != null :: requested[i].labels != requested[j].labels
  }

  /** Writing into a label map that was never allocated is a run-time panic. */
  ghost predicate HasNilMap(app: string, entries: seq<Entry>) {
    exists e :: e in entries && e.appName == app && e.labels.None?
  }

  ghost predicate AllApart(targets: seq<LabelMap>) {
    forall a, b | 0 <= a < b < |targets| :: targets[a] != targets[b]
  }

  /** From entry `j` on the label maps are as they were, and none of the `used` ones. */
  ghost predicate Untouched(requested: seq<TargetCluster>, entries: seq<Entry>, used: set<LabelMap?>, j: nat)
    requires |entries| == |requested|
    reads set t | t in requested && t.labels != null :: t.labels
  {
    forall i | j <= i < |requested| && requested[i].labels != null ::
      requested[i].labels !in used && entries[i].labels == Some(requested[i].labels.labels)
  }

  method MergeInto(dst: LabelMap, src: LabelMap)
    requires dst != src
    modifies dst
    ensures dst.labels == old(dst.labels) + src.labels
  {
    var todo := src.labels.Keys;
    while todo != {}
      invariant todo <= src.labels.Keys
      invariant dst.labels == old(dst.labels) + (src.labels - todo)
      decreases todo
    {
      var k :| k in todo;
      dst.labels := dst.labels[k := src.labels[k]];
      todo := todo - {k};
    }
    assert src.labels - {} == src.labels;
  }

  method FindCluster(targets: seq<LabelMap>, cluster: string) returns (i: nat)
    ensures i == IndexOf(ClustersOf(Values(targets)), cluster)
  {
    i := 0;
    while i < |targets| && ClusterOf(targets[i].labels) != cluster
      invariant 0 <= i <= |targets|
      invariant forall j | 0 <= j < i :: ClustersOf(Values(targets))[j] != cluster
    {
      i := i + 1;
    }
    ghost var names := ClustersOf(Values(targets));
    assert i < |targets| ==> names[i] == cluster;
  }

  /** One entry: writes the cluster into the entry's own label map, then merges that map
      into the target of the same cluster or appends it. */
  method PlaceOne(targets: seq<LabelMap>, t: TargetCluster) returns (result: seq<LabelMap>)
    requires t.labels != null && t.labels !in targets
    requires AllApart(targets)
    modifies targets, t.labels
    ensures Values(result) == Placed(old(Values(targets)), Request(t.clusterId, old(t.labels.labels)))
    ensures AllApart(result) && (result == targets || result == targets + [t.labels])
  {
    t.labels.labels := t.labels.labels[CLUSTER_NAME := t.clusterId];
    assert Values(targets) == old(Values(targets));
    var cluster := t.labels.labels[CLUSTER_NAME];
    var i := FindCluster(targets, cluster);
    if cluster != "" && i < |targets| {
      MergeInto(targets[i], t.labels);
      return targets;
    }
    return targets + [t.labels];
  }

  /** The target list that createDeploymentCr gives to an application of a targeted
      Deployment. */
  method TargetsFor(app: string, requested: seq<TargetCluster>, ghost maps: set<LabelMap>)
    returns (panic: bool, targets: seq<LabelMap>)
    requires OwnMaps(requested) && forall i | 0 <= i < |requested| && requested[i].labels != null :: requested[i].labels in maps
    modifies maps
    ensures panic <==> HasNilMap(app, old(Snapshot(requested)))
    ensures !panic ==> Values(targets) == TargetsOf(app, old(Snapshot(requested)))
  {
    targets := [];
    ghost var entries := Snapshot(requested);
    ghost var used: set<LabelMap?> := {};
    for j := 0 to |requested|
      invariant !HasNilMap(app, entries[..j])
      invariant (forall x | x in targets :: x in used) && used <= maps
      invariant Untouched(requested, entries, used, j)
      invariant AllApart(targets)
      invariant Values(targets) == TargetsOf(app, entries[..j])
    {
      RequestsForStep(app, entries, j);
      var t := requested[j];
      if t.appName == app {
        if t.labels == null {
          assert entries[j] in entries;
          return true, [];
        }
        targets := PlaceOne(targets, t);
        used := used + {t.labels};
      }
    }
    assert entries[..|requested|] == entries;
    return false, targets;
  }

  lemma RequestsForStep(app: string, entries: seq<Entry>, j: nat)
    requires j < |entries|
    ensures var before, e := TargetsOf(app, entries[..j]), entries[j];
            TargetsOf(app, entries[..j + 1]) ==
            if e.appName == app && e.labels.Some? then Placed(before, Request(e.clusterId, e.labels.value)) else before
    ensures HasNilMap(app, entries[..j + 1]) <==>
            HasNilMap(app, entries[..j]) || (entries[j].appName == app && entries[j].labels.None?)
  {
    assert forall e :: e in entries[..j + 1] <==> e in entries[..j] || e == entries[j];
    assert entries[..j + 1][..j] == entries[..j];
    var before, e := RequestsFor(app, entries[..j]), entries[j];
    if e.appName == app && e.labels.Some? {
      var after := before + [Request(e.clusterId, e.labels.value)];
      assert after[..|after| - 1] == before;
    } else {
      assert RequestsFor(app, entries[..j + 1]) == before;
    }
  }

  // ---------------------------------------------------------------------------
  // What the list looks like
  // ---------------------------------------------------------------------------

  function Ids(requests: seq<Request>): seq<string> {
    seq(|requests|, i requires 0 <= i < |requests| => requests[i].clusterId)
  }

  lemma {:induction false} IndexOfConcat(s: seq<string>, x: string, c: string)
    ensures IndexOf(s + [x], c) == if c in s then IndexOf(s, c) else if x == c then |s| else |s| + 1
    ensures c in s <==> IndexOf(s, c) < |s|
  {
    if s == [] || s[0] == c {
    } else {
      assert (s + [x])[1..] == s[1..] + [x];
      IndexOfConcat(s[1..], x, c);
    }
  }

  lemma PlacedClusters(list: seq<Labels>, r: Request)
    ensures ClustersOf(Placed(list, r)) ==
            if r.clusterId != "" && r.clusterId in ClustersOf(list) then ClustersOf(list)
            else ClustersOf(list) + [r.clusterId]
  {
    IndexOfConcat(ClustersOf(list), "", r.clusterId);
  }

  lemma SplitLast(requests: seq<Request>)
    requires requests != []
    ensures Ids(requests) == Ids(requests[..|requests| - 1]) + [requests[|requests| - 1].clusterId]
  {
  }

  /** Appending `c` to both lists, to the first one only if it is new there, keeps the order
      of first occurrences. */
  lemma AppendKeepsOrder(names: seq<string>, ids: seq<string>, c: string, a: string, b: string)
    requires (a in names <==> a in ids) && (b in names <==> b in ids)
    requires IndexOf(names, a) < IndexOf(names, b) <==> IndexOf(ids, a) < IndexOf(ids, b)
    ensures var names', ids' := names + [c], ids + [c];
            && (a in names' <==> a in ids')
            && (IndexOf(names', a) < IndexOf(names', b) <==> IndexOf(ids', a) < IndexOf(ids', b))
            && (c in names ==> (IndexOf(names, a) < IndexOf(names, b) <==> IndexOf(ids', a) < IndexOf(ids', b)))
  {
    IndexOfConcat(names, c, a);
    IndexOfConcat(names, c, b);
    IndexOfConcat(ids, c, a);
    IndexOfConcat(ids, c, b);
  }

  /** One entry for each requested cluster, in the order in which they first occur. */
  lemma {:induction false} ClustersInFirstOccurrenceOrder(requests: seq<Request>, a: string, b: string)
    requires a != "" && b != ""
    ensures var names, ids := ClustersOf(PlacedAll(requests)), Ids(requests);
            && (a in names <==> a in ids)
            && (IndexOf(names, a) < IndexOf(names, b) <==> IndexOf(ids, a) < IndexOf(ids, b))
  {
    if requests != [] {
      var rest, last := requests[..|requests| - 1], requests[|requests| - 1];
      ClustersInFirstOccurrenceOrder(rest, a, b);
      ClustersInFirstOccurrenceOrder(rest, b, a);
      PlacedClusters(PlacedAll(rest), last);
      SplitLast(requests);
      AppendKeepsOrder(ClustersOf(PlacedAll(rest)), Ids(rest), last.clusterId, a, b);
    }
  }

  ghost predicate OnceEach(names: seq<string>) {
    forall i, j | 0 <= i < j < |names| && names[i] == names[j] :: names[i] == ""
  }

  lemma {:induction false} ClustersOccurOnce(requests: seq<Request>)
    ensures OnceEach(ClustersOf(PlacedAll(requests)))
  {
    if requests != [] {
      var rest, c := requests[..|requests| - 1], requests[|requests| - 1].clusterId;
      var names := ClustersOf(PlacedAll(rest));
      ClustersOccurOnce(rest);
      PlacedClusters(PlacedAll(rest), requests[|requests| - 1]);
      assert c == "" || c !in names ==> OnceEach(names + [c]);
    }
  }

  /** The value that the last request for cluster `c` with label `k` gives to it. */
  ghost function LastWritten(requests: seq<Request>, c: string, k: string): Option<string> {
    if requests == [] then None
    else
      var last := requests[|requests| - 1];
      if last.clusterId == c && k == CLUSTER_NAME then Some(c)
      else if last.clusterId == c && k in last.labels then Some(last.labels[k])
      else LastWritten(requests[..|requests| - 1], c, k)
  }

  lemma {:induction false} NothingWritten(requests: seq<Request>, c: string, k: string)
    requires c !in Ids(requests)
    ensures LastWritten(requests, c, k) == None
  {
    if requests != [] {
      SplitLast(requests);
      assert Ids(requests)[|requests| - 1] == requests[|requests| - 1].clusterId;
      NothingWritten(requests[..|requests| - 1], c, k);
    }
  }

  lemma PlacedEntry(list: seq<Labels>, r: Request, i: nat)
    requires i < |list| && OnceEach(ClustersOf(list)) && ClusterOf(list[i]) != ""
    ensures Placed(list, r)[i] ==
            if ClusterOf(list[i]) == r.clusterId then list[i] + r.labels[CLUSTER_NAME := r.clusterId] else list[i]
  {
    assert ClustersOf(list)[i] == ClusterOf(list[i]);
  }

  /** The entry of a cluster carries, for every label, what was written last. */
  lemma {:induction false} EntriesCarryLastWrittenLabels(requests: seq<Request>, i: nat, k: string)
    requires i < |PlacedAll(requests)| && ClusterOf(PlacedAll(requests)[i]) != ""
    ensures var t := PlacedAll(requests)[i];
            LastWritten(requests, ClusterOf(t), k) == if k in t then Some(t[k]) else None
  {
    if requests != [] {
      var rest, last := requests[..|requests| - 1], requests[|requests| - 1];
      var list, c := PlacedAll(rest), ClusterOf(PlacedAll(requests)[i]);
      PlacedClusters(list, last);
      assert ClustersOf(PlacedAll(requests))[i] == c;
      if i < |list| {
        assert ClustersOf(list)[i] == c;
        EntriesCarryLastWrittenLabels(rest, i, k);
        ClustersOccurOnce(rest);
        PlacedEntry(list, last, i);
      } else {
        assert c == last.clusterId && c !in ClustersOf(list);
        ClustersInFirstOccurrenceOrder(rest, c, c);
        NothingWritten(rest, c, k);
      }
    }
  }

  /** The label sets without a cluster. */
  ghost function Unnamed(list: seq<Labels>): seq<Labels> {
    if list == [] then []
    else Unnamed(list[..|list| - 1]) + (if ClusterOf(list[|list| - 1]) == "" then [list[|list| - 1]] else [])
  }

  ghost function UnnamedRequests(requests: seq<Request>): seq<Labels> {
    if requests == [] then []
    else
      var last := requests[|requests| - 1];
      UnnamedRequests(requests[..|requests| - 1]) + (if last.clusterId == "" then [last.labels[CLUSTER_NAME := ""]] else [])
  }

  lemma {:induction false} UnnamedKeeps(list: seq<Labels>, i: nat, t: Labels)
    requires i < |list| && ClusterOf(list[i]) != "" && ClusterOf(t) != ""
    ensures Unnamed(list[i := t]) == Unnamed(list)
  {
    var rest := list[..|list| - 1];
    if i < |list| - 1 {
      assert list[i := t][..|list| - 1] == rest[i := t];
      UnnamedKeeps(rest, i, t);
    } else {
      assert list[i := t][..|list| - 1] == rest;
    }
  }

  /** Entries that name no cluster are never merged: each has a target of its own. */
  lemma {:induction false} UnnamedStayApart(requests: seq<Request>)
    ensures Unnamed(PlacedAll(requests)) == UnnamedRequests(requests)
  {
    if requests != [] {
      var rest, last := requests[..|requests| - 1], requests[|requests| - 1];
      UnnamedStayApart(rest);
      var list, labels := PlacedAll(rest), last.labels[CLUSTER_NAME := last.clusterId];
      var i := IndexOf(ClustersOf(list), last.clusterId);
      if last.clusterId != "" && i < |list| {
        assert ClustersOf(list)[i] == ClusterOf(list[i]) == last.clusterId;
        UnnamedKeeps(list, i, list[i] + labels);
      } else {
        assert (list + [labels])[..|list|] == list;
      }
    }
  }

  // ---------------------------------------------------------------------------
  // Whose targets these are
  // ---------------------------------------------------------------------------

  /** The entry is one of the application and gives label `k` of cluster `c` the value `v`. */
  ghost predicate Writes(e: Entry, app: string, c: string, k: string, v: string) {
    && e.appName == app && e.clusterId == c && e.labels.Some?
    && if k == CLUSTER_NAME then v == c else k in e.labels.value && e.labels.value[k] == v
  }

  /** The last entry of the application that says anything on label `k` of cluster `c`. */
  ghost predicate IsLastWriter(entries: seq<Entry>, j: nat, app: string, c: string, k: string, v: string) {
    j < |entries| && Writes(entries[j], app, c, k, v)
    && forall i, w | j < i < |entries| :: !Writes(entries[i], app, c, k, w)
  }

  lemma {:induction false} LastWriter(app: string, entries: seq<Entry>, c: string, k: string)
    ensures match LastWritten(RequestsFor(app, entries), c, k)
            case None => forall e, v | e in entries :: !Writes(e, app, c, k, v)
            case Some(v) => exists j: nat :: IsLastWriter(entries, j, app, c, k, v)
  {
    if entries != [] {
      var n := |entries| - 1;
      var rest, e := entries[..n], entries[n];
      LastWriter(app, rest, c, k);
      assert entries == rest + [e];
      var before := LastWritten(RequestsFor(app, rest), c, k);
      OneMoreWriter(app, entries, c, k);
      if v :| Writes(e, app, c, k, v) {
        assert IsLastWriter(entries, n, app, c, k, v);
      } else if before.Some? {
        var j: nat :| IsLastWriter(rest, j, app, c, k, before.value);
        assert IsLastWriter(entries, j, app, c, k, before.value);
      } else {
        assert forall x | x in entries :: x in rest || x == e;
      }
    }
  }

  lemma OneMoreWriter(app: string, entries: seq<Entry>, c: string, k: string)
    requires entries != []
    ensures var e := entries[|entries| - 1];
            var before := LastWritten(RequestsFor(app, entries[..|entries| - 1]), c, k);
            var after := LastWritten(RequestsFor(app, entries), c, k);
            && (forall v | Writes(e, app, c, k, v) :: after == Some(v))
            && ((forall v :: !Writes(e, app, c, k, v)) ==> after == before)
  {
    var e, before, after := entries[|entries| - 1], RequestsFor(app, entries[..|entries| - 1]), RequestsFor(app, entries);
    if e.appName == app && e.labels.Some? {
      assert after[..|after| - 1] == before && after[|after| - 1] == Request(e.clusterId, e.labels.value);
      if e.clusterId == c {
        if k == CLUSTER_NAME {
          assert Writes(e, app, c, k, c);
        } else if k in e.labels.value {
          assert Writes(e, app, c, k, e.labels.value[k]);
        }
      }
    } else {
      assert after == before;
    }
  }

  /** A target of a named cluster has exactly the labels that entries of the application give
      this cluster, each with the value of the last of them. */
  lemma LabelsAreItsOwn(app: string, entries: seq<Entry>, i: nat, k: string)
    requires i < |TargetsOf(app, entries)| && ClusterOf(TargetsOf(app, entries)[i]) != ""
    ensures var t := TargetsOf(app, entries)[i];
            if k in t then exists j: nat :: IsLastWriter(entries, j, app, ClusterOf(t), k, t[k])
            else forall e, v | e in entries :: !Writes(e, app, ClusterOf(t), k, v)
  {
    EntriesCarryLastWrittenLabels(RequestsFor(app, entries), i, k);
    LastWriter(app, entries, ClusterOf(TargetsOf(app, entries)[i]), k);
  }

  lemma {:induction false} RequestedIds(app: string, entries: seq<Entry>, c: string)
    ensures c in Ids(RequestsFor(app, entries)) <==>
              exists e :: e in entries && e.appName == app && e.labels.Some? && e.clusterId == c
  {
    if entries != [] {
      var n := |entries| - 1;
      RequestedIds(app, entries[..n], c);
      assert entries == entries[..n] + [entries[n]];
      var before, after := RequestsFor(app, entries[..n]), RequestsFor(app, entries);
      if after != before {
        SplitLast(after);
        assert after[..|after| - 1] == before;
      }
    }
  }

  /** The named clusters of an application are those of its own entries; entries of other
      applications give it nothing. */
  lemma ClustersAreItsOwn(app: string, entries: seq<Entry>, c: string)
    ensures c != "" ==> (c in ClustersOf(TargetsOf(app, entries)) <==>
                           exists e :: e in entries && e.appName == app && e.labels.Some? && e.clusterId == c)
    ensures (forall e | e in entries :: e.appName != app) ==> TargetsOf(app, entries) == []
  {
    RequestedIds(app, entries, c);
    if c != "" {
      ClustersInFirstOccurrenceOrder(RequestsFor(app, entries), c, c);
    }
    if forall e | e in entries :: e.appName != app {
      NothingRequested(app, entries);
    }
  }

  lemma {:induction false} NothingRequested(app: string, entries: seq<Entry>)
    requires forall e | e in entries :: e.appName != app
    ensures RequestsFor(app, entries) == []
  {
    if entries != [] {
      NothingRequested(app, entries[..|entries| - 1]);
    }
  }

  // ---------------------------------------------------------------------------
  // mergeAllAppTargetClusters
  // ---------------------------------------------------------------------------

  datatype DeploymentType = AutoScaling | Targeted

  /** The entries made up for a request that names its clusters for all applications at
      once and lists no others: one for each application, and all of them share one label map. */
  method MergeAllApps(kind: DeploymentType, apps: seq<string>, clusterId: string, labels: LabelMap?)
    returns (entries: seq<TargetCluster>)
    ensures |entries| == |apps|
    ensures forall i | 0 <= i < |apps| ::
              entries[i] == if kind == Targeted then TargetCluster(apps[i], clusterId, null)
                            else TargetCluster(apps[i], "", labels)
  {
    entries := [];
    for i := 0 to |apps|
      invariant |entries| == i
      invariant forall j | 0 <= j < i ::
                  entries[j] == if kind == Targeted then TargetCluster(apps[j], clusterId, null)
                                else TargetCluster(apps[j], "", labels)
    {
      entries := entries + [if kind == Targeted then TargetCluster(apps[i], clusterId, null)
                            else TargetCluster(apps[i], "", labels)];
    }
  }

  /** `src` fills in the labels that `dst` lacks. */
  method FillFrom(dst: LabelMap, src: LabelMap)
    requires dst != src
    modifies dst
    ensures dst.labels == src.labels + old(dst.labels)
  {
    var todo := src.labels.Keys;
    while todo != {}
      invariant todo <= src.labels.Keys
      invariant dst.labels == (src.labels - todo) + old(dst.labels)
      decreases todo
    {
      var k :| k in todo;
      if k !in dst.labels {
        dst.labels := dst.labels[k := src.labels[k]];
      }
      todo := todo - {k};
    }
    assert src.labels - {} == src.labels;
  }

  /** Some entry of one of the applications has the label map `m`. */
  ghost predicate Serves(entries: seq<TargetCluster>, apps: seq<string>, m: LabelMap) {
    exists i :: 0 <= i < |entries| && entries[i].appName in apps && entries[i].labels == m
  }

  method FillApp(entries: seq<TargetCluster>, app: string, labels: LabelMap, ghost maps: set<LabelMap>)
    requires labels !in maps
    requires forall i | 0 <= i < |entries| && entries[i].appName == app :: entries[i].labels != null && entries[i].labels in maps
    modifies maps
    ensures forall m | m in maps ::
              m.labels == if Serves(entries, [app], m) then labels.labels + old(m.labels) else old(m.labels)
  {
    for i := 0 to |entries|
      invariant forall m | m in maps ::
                  m.labels == if Serves(entries[..i], [app], m) then labels.labels + old(m.labels) else old(m.labels)
    {
      ghost var t := entries[i];
      assert forall m | m in maps ::
               Serves(entries[..i + 1], [app], m) <==> Serves(entries[..i], [app], m) || (t.appName == app && t.labels == m) by {
        assert entries[..i + 1] == entries[..i] + [t];
        assert entries[..i + 1][i] == t;
      }
      if entries[i].appName == app {
        FillFrom(entries[i].labels, labels);
      }
    }
    assert entries[..|entries|] == entries;
  }

  /** The other branch: under auto-scaling, the labels for all applications are filled in where
      the entries of an application lack them; a label that is there stays.  Entries may share
      their label maps. */
  method FillAllApps(kind: DeploymentType, apps: seq<string>, entries: seq<TargetCluster>, labels: LabelMap, ghost maps: set<LabelMap>)
    requires labels !in maps
    requires forall i | 0 <= i < |entries| && entries[i].labels != null :: entries[i].labels in maps
    requires kind == AutoScaling ==> forall i | 0 <= i < |entries| :: entries[i].labels != null
    modifies maps
    ensures forall m | m in maps ::
              m.labels == if kind == AutoScaling && Serves(entries, apps, m) then labels.labels + old(m.labels) else old(m.labels)
  {
    if kind == AutoScaling {
      for a := 0 to |apps|
        invariant forall m | m in maps ::
                    m.labels == if Serves(entries, apps[..a], m) then labels.labels + old(m.labels) else old(m.labels)
      {
        assert forall x :: x in apps[..a + 1] <==> x in apps[..a] || x == apps[a];
        FillApp(entries, apps[a], labels, maps);
      }
      assert apps[..|apps|] == apps;
    }
  }

  /** A targeted request of this form crashes for every application it has. */
  method TargetedForAllApps(apps: seq<string>, clusterId: string, app: string) returns (panic: bool)
    ensures panic <==> app in apps
  {
    var entries := MergeAllApps(Targeted, apps, clusterId, null);
    var targets;
    ghost var snapshot := Snapshot(entries);
    assert forall i | 0 <= i < |apps| :: snapshot[i] == Entry(apps[i], clusterId, None);
    panic, targets := TargetsFor(app, entries, {});
    if i :| 0 <= i < |apps| && apps[i] == app {
      assert snapshot[i] in snapshot;
    }
  }

  // ---------------------------------------------------------------------------
  // propagateTargetsToChildDeployments
  // ---------------------------------------------------------------------------

  datatype Application = Application(name: string, targets: seq<Labels>)

  datatype Spec = Spec(kind: DeploymentType, apps: seq<Application>, children: set<Name>)

  /** `targets` without the entries whose cluster an earlier entry names. */
  function FirstOfEachCluster(targets: seq<Labels>): seq<Labels> {
    if targets == [] then []
    else
      var rest, last := FirstOfEachCluster(targets[..|targets| - 1]), targets[|targets| - 1];
      if ClusterOf(last) in ClustersOf(rest) then rest else rest + [last]
  }

  function AllTargets(apps: seq<Application>): seq<Labels> {
    if apps == [] then [] else AllTargets(apps[..|apps| - 1]) + apps[|apps| - 1].targets
  }

  /** `targets` with the entries of `more` appended whose cluster is missing. */
  function WithMissing(targets: seq<Labels>, more: seq<Labels>): seq<Labels> {
    if more == [] then targets
    else
      var so, last := WithMissing(targets, more[..|more| - 1]), more[|more| - 1];
      if ClusterOf(last) in ClustersOf(so) then so else so + [last]
  }

  ghost function Propagated(parent: Spec, child: Spec): Spec {
    if parent.kind == Targeted then
      var unique := FirstOfEachCluster(AllTargets(parent.apps));
      child.(apps := seq(|child.apps|, i requires 0 <= i < |child.apps| =>
        child.apps[i].(targets := WithMissing(child.apps[i].targets, unique))))
    else if parent.apps == [] || (forall a | a in child.apps :: a.targets == parent.apps[0].targets) then child
    else
      child.(kind := AutoScaling, apps := seq(|child.apps|, i requires 0 <= i < |child.apps| =>
        child.apps[i].(targets := parent.apps[0].targets)))
  }

  method HasCluster(targets: seq<Labels>, c: string) returns (found: bool)
    ensures found <==> c in ClustersOf(targets)
  {
    for i := 0 to |targets|
      invariant forall j | 0 <= j < i :: ClustersOf(targets)[j] != c
    {
      if ClusterOf(targets[i]) == c {
        assert ClustersOf(targets)[i] == c;
        return true;
      }
    }
    return false;
  }

  method CollectUnique(apps: seq<Application>) returns (unique: seq<Labels>)
    ensures unique == FirstOfEachCluster(AllTargets(apps))
  {
    var all: seq<Labels> := [];
    for i := 0 to |apps|
      invariant all == AllTargets(apps[..i])
    {
      assert apps[..i + 1][..i] == apps[..i];
      all := all + apps[i].targets;
    }
    assert apps[..|apps|] == apps;
    unique := [];
    var seen: set<string> := {};
    for i := 0 to |all|
      invariant unique == FirstOfEachCluster(all[..i])
      invariant forall c :: c in seen <==> c in ClustersOf(unique)
    {
      assert all[..i + 1][..i] == all[..i];
      var c := ClusterOf(all[i]);
      if c !in seen {
        assert ClustersOf(unique + [all[i]]) == ClustersOf(unique) + [c];
        seen := seen + {c};
        unique := unique + [all[i]];
      }
    }
    assert all[..|all|] == all;
  }

  method AddMissing(targets: seq<Labels>, more: seq<Labels>) returns (result: seq<Labels>, updated: bool)
    ensures result == WithMissing(targets, more)
    ensures updated <==> result != targets
  {
    result, updated := targets, false;
    for i := 0 to |more|
      invariant result == WithMissing(targets, more[..i])
      invariant targets <= result && (updated <==> |result| > |targets|)
    {
      assert more[..i + 1][..i] == more[..i];
      var exists_ := HasCluster(result, ClusterOf(more[i]));
      if !exists_ {
        result := result + [more[i]];
        updated := true;
      }
    }
    assert more[..|more|] == more;
  }

  method PropagateTo(parent: Spec, child: Spec) returns (result: Spec, updated: bool)
    ensures updated <==> Propagated(parent, child) != child
    ensures updated ==> result == Propagated(parent, child)
  {
    result, updated := child, false;
    var unique: seq<Labels> := [];
    if parent.kind == Targeted {
      unique := CollectUnique(parent.apps);
    } else {
      result := result.(kind := AutoScaling);
    }
    for i := 0 to |child.apps|
      invariant |result.apps| == |child.apps| && result.children == child.children
      invariant result.kind == if parent.kind == Targeted then child.kind else AutoScaling
      invariant forall j | i <= j < |child.apps| :: result.apps[j] == child.apps[j]
      invariant forall j | 0 <= j < i :: result.apps[j] == NewApp(parent, unique, child.apps[j])
      invariant updated <==> exists j :: 0 <= j < i && result.apps[j] != child.apps[j]
    {
      if parent.kind == Targeted {
        var targets, changed := AddMissing(result.apps[i].targets, unique);
        result := result.(apps := result.apps[i := result.apps[i].(targets := targets)]);
        updated := updated || changed;
      } else if |parent.apps| > 0 && result.apps[i].targets != parent.apps[0].targets {
        result := result.(apps := result.apps[i := result.apps[i].(targets := parent.apps[0].targets)]);
        updated := true;
      }
    }
    PropagatedApps(parent, child, result);
  }

  function NewApp(parent: Spec, unique: seq<Labels>, app: Application): Application {
    if parent.kind == Targeted then app.(targets := WithMissing(app.targets, unique))
    else if parent.apps == [] then app
    else app.(targets := parent.apps[0].targets)
  }

  lemma PropagatedApps(parent: Spec, child: Spec, result: Spec)
    requires |result.apps| == |child.apps| && result.children == child.children
    requires result.kind == if parent.kind == Targeted then child.kind else AutoScaling
    requires forall j | 0 <= j < |child.apps| ::
               result.apps[j] == NewApp(parent, FirstOfEachCluster(AllTargets(parent.apps)), child.apps[j])
    ensures Propagated(parent, child) != child <==> exists j :: 0 <= j < |child.apps| && result.apps[j] != child.apps[j]
    ensures Propagated(parent, child) != child ==> result == Propagated(parent, child)
  {
    var p := Propagated(parent, child);
    if j :| 0 <= j < |child.apps| && result.apps[j] != child.apps[j] {
      assert child.apps[j] in child.apps;
      assert p.apps[j] == result.apps[j];
      assert p.apps == result.apps;
    } else {
      assert result.apps == child.apps;
      if parent.kind == Targeted {
        assert p.apps == child.apps;
      }
    }
  }

  class DeploymentSpecs {
    var specs: map<Name, Spec>

    /** A child that cannot be read or written is skipped. */
    method PropagateTargets(parent: Spec, unreadable: set<Name>, unwritable: set<Name>)
      modifies this
      ensures specs.Keys == old(specs).Keys
      ensures forall n | n in specs ::
                specs[n] == if n in parent.children - unreadable - unwritable
                            then Propagated(parent, old(specs)[n]) else old(specs)[n]
    {
      var todo := parent.children;
      while todo != {}
        invariant todo <= parent.children && specs.Keys == old(specs).Keys
        invariant forall n | n in specs ::
                    specs[n] == if n in parent.children - todo - unreadable - unwritable
                                then Propagated(parent, old(specs)[n]) else old(specs)[n]
        decreases todo
      {
        var n :| n in todo;
        if n in specs && n !in unreadable {
          var child, updated := PropagateTo(parent, specs[n]);
          if updated && n !in unwritable {
            specs := specs[n := child];
          }
        }
        todo := todo - {n};
      }
    }
  }

  // ---------------------------------------------------------------------------
  // What propagation does
  // ---------------------------------------------------------------------------

  ghost predicate DistinctClusters(list: seq<Labels>) {
    forall i, j | 0 <= i < j < |list| :: ClusterOf(list[i]) != ClusterOf(list[j])
  }

  ghost function ClusterSet(list: seq<Labels>): set<string> {
    set t | t in list :: ClusterOf(t)
  }

  lemma ClusterSetIsClusters(list: seq<Labels>, c: string)
    ensures c in ClusterSet(list) <==> c in ClustersOf(list)
  {
    if c in ClusterSet(list) {
      var t :| t in list && ClusterOf(t) == c;
      var i :| 0 <= i < |list| && list[i] == t;
      assert ClustersOf(list)[i] == c;
    }
    if c in ClustersOf(list) {
      var i :| 0 <= i < |list| && ClustersOf(list)[i] == c;
      assert list[i] in list;
    }
  }

  lemma AppendedCluster(list: seq<Labels>, t: Labels)
    ensures ClusterSet(list + [t]) == ClusterSet(list) + {ClusterOf(t)}
    ensures DistinctClusters(list) && ClusterOf(t) !in ClustersOf(list) ==> DistinctClusters(list + [t])
  {
    assert forall i | 0 <= i < |list| :: ClustersOf(list)[i] == ClusterOf(list[i]);
    assert forall x :: x in list + [t] <==> x in list || x == t;
  }

  lemma {:induction false} MissingAreAppended(targets: seq<Labels>, more: seq<Labels>)
    ensures targets <= WithMissing(targets, more)
    ensures ClusterSet(WithMissing(targets, more)) == ClusterSet(targets) + ClusterSet(more)
    ensures DistinctClusters(targets) ==> DistinctClusters(WithMissing(targets, more))
  {
    if more == [] {
    } else {
      var rest, last := more[..|more| - 1], more[|more| - 1];
      MissingAreAppended(targets, rest);
      assert more == rest + [last];
      var so := WithMissing(targets, rest);
      ClusterSetIsClusters(so, ClusterOf(last));
      AppendedCluster(rest, last);
      AppendedCluster(so, last);
    }
  }

  lemma {:induction false} NothingMissing(targets: seq<Labels>, more: seq<Labels>)
    requires ClusterSet(more) <= ClusterSet(targets)
    ensures WithMissing(targets, more) == targets
  {
    if more != [] {
      var rest, last := more[..|more| - 1], more[|more| - 1];
      assert more == rest + [last];
      AppendedCluster(rest, last);
      NothingMissing(targets, rest);
      ClusterSetIsClusters(targets, ClusterOf(last));
    }
  }

  lemma {:induction false} UniqueKeepsClusters(targets: seq<Labels>)
    ensures ClusterSet(FirstOfEachCluster(targets)) == ClusterSet(targets)
    ensures DistinctClusters(FirstOfEachCluster(targets))
  {
    if targets != [] {
      var rest, last := targets[..|targets| - 1], targets[|targets| - 1];
      UniqueKeepsClusters(rest);
      assert targets == rest + [last];
      var so := FirstOfEachCluster(rest);
      ClusterSetIsClusters(so, ClusterOf(last));
      AppendedCluster(rest, last);
      AppendedCluster(so, last);
    }
  }

  lemma {:induction false} AllTargetsAre(apps: seq<Application>, t: Labels)
    ensures t in AllTargets(apps) <==> exists a :: a in apps && t in a.targets
  {
    if apps != [] {
      AllTargetsAre(apps[..|apps| - 1], t);
      assert apps == apps[..|apps| - 1] + [apps[|apps| - 1]];
    }
  }

  /** The clusters of all applications. */
  ghost function ClustersOfApps(apps: seq<Application>): set<string> {
    set a, t | a in apps && t in a.targets :: ClusterOf(t)
  }

  lemma ClustersOfAppsAre(apps: seq<Application>)
    ensures ClusterSet(AllTargets(apps)) == ClustersOfApps(apps)
  {
    forall c ensures c in ClusterSet(AllTargets(apps)) <==> c in ClustersOfApps(apps) {
      if c in ClusterSet(AllTargets(apps)) {
        var t :| t in AllTargets(apps) && ClusterOf(t) == c;
        AllTargetsAre(apps, t);
      }
      if c in ClustersOfApps(apps) {
        var a, t :| a in apps && t in a.targets && ClusterOf(t) == c;
        AllTargetsAre(apps, t);
      }
    }
  }

  /** Each application of a child keeps its own targets in front, and ends up on exactly
      its own clusters and those of any application of the parent, each of them once. */
  lemma ChildrenReachTheParentsClusters(parent: Spec, child: Spec, i: nat)
    requires parent.kind == Targeted && i < |child.apps|
    ensures |Propagated(parent, child).apps| == |child.apps|
    ensures var before, after := child.apps[i].targets, Propagated(parent, child).apps[i].targets;
            && before <= after
            && ClusterSet(after) == ClusterSet(before) + ClustersOfApps(parent.apps)
            && (DistinctClusters(before) ==> DistinctClusters(after))
  {
    var unique := FirstOfEachCluster(AllTargets(parent.apps));
    UniqueKeepsClusters(AllTargets(parent.apps));
    MissingAreAppended(child.apps[i].targets, unique);
    ClustersOfAppsAre(parent.apps);
  }

  /** The first target of its cluster, in a list and in a list of applications. */
  ghost predicate IsFirstAt(targets: seq<Labels>, i: nat, t: Labels) {
    i < |targets| && targets[i] == t && forall j: nat | j < i :: ClusterOf(targets[j]) != ClusterOf(t)
  }

  ghost predicate IsFirstIn(apps: seq<Application>, a: nat, b: nat, t: Labels) {
    && a < |apps| && IsFirstAt(apps[a].targets, b, t)
    && forall i: nat | i < a :: ClusterOf(t) !in ClusterSet(apps[i].targets)
  }

  lemma {:induction false} FirstOnesAre(targets: seq<Labels>, t: Labels)
    ensures t in FirstOfEachCluster(targets) ==> exists i: nat :: IsFirstAt(targets, i, t)
  {
    if targets != [] {
      var n := |targets| - 1;
      var rest, last := targets[..n], targets[n];
      FirstOnesAre(rest, t);
      UniqueKeepsClusters(rest);
      ClusterSetIsClusters(FirstOfEachCluster(rest), ClusterOf(last));
      if i: nat :| IsFirstAt(rest, i, t) {
        assert IsFirstAt(targets, i, t);
      } else if t in FirstOfEachCluster(targets) {
        assert t == last && ClusterOf(last) !in ClusterSet(rest);
        assert forall j: nat | j < n :: targets[j] == rest[j] && rest[j] in rest;
        assert IsFirstAt(targets, n, t);
      }
    }
  }

  lemma {:induction false} FirstInAll(apps: seq<Application>, i: nat, t: Labels)
    requires IsFirstAt(AllTargets(apps), i, t)
    ensures exists a: nat, b: nat :: IsFirstIn(apps, a, b, t)
  {
    var n := |apps| - 1;
    var rest := apps[..n];
    var x, y := AllTargets(rest), apps[n].targets;
    if i < |x| {
      assert forall j: nat | j <= i :: (x + y)[j] == x[j];
      assert IsFirstAt(x, i, t);
      FirstInAll(rest, i, t);
      var a: nat, b: nat :| IsFirstIn(rest, a, b, t);
      assert IsFirstIn(apps, a, b, t);
    } else {
      assert forall j: nat | j < |y| :: (x + y)[|x| + j] == y[j];
      assert IsFirstAt(y, i - |x|, t);
      ClustersOfAppsAre(rest);
      forall v | v in x ensures ClusterOf(v) != ClusterOf(t) {
        var j: nat :| j < |x| && x[j] == v;
        assert (x + y)[j] == v;
      }
      forall a: nat | a < n ensures ClusterSet(apps[a].targets) <= ClusterSet(x) {
        assert rest[a] in rest;
      }
      assert IsFirstIn(apps, n, i - |x|, t);
    }
  }

  lemma {:induction false} MissingOnesAreMore(targets: seq<Labels>, more: seq<Labels>)
    ensures forall t | t in WithMissing(targets, more) :: t in targets || t in more
  {
    if more != [] {
      MissingOnesAreMore(targets, more[..|more| - 1]);
    }
  }

  /** What is added is the parent's first target of its cluster, as it stands. */
  lemma AddedTargetsAreTheParents(parent: Spec, child: Spec, i: nat, t: Labels)
    requires parent.kind == Targeted && i < |child.apps|
    ensures |Propagated(parent, child).apps| == |child.apps|
    ensures t in Propagated(parent, child).apps[i].targets ==>
              t in child.apps[i].targets || exists a: nat, b: nat :: IsFirstIn(parent.apps, a, b, t)
  {
    var all := AllTargets(parent.apps);
    MissingOnesAreMore(child.apps[i].targets, FirstOfEachCluster(all));
    FirstOnesAre(all, t);
    if j: nat :| IsFirstAt(all, j, t) {
      FirstInAll(parent.apps, j, t);
    }
  }

  /** Under auto-scaling every application of a child gets the targets of the parent's first
      application, and the child the type; it stays as it is if it has those targets already,
      or the parent has no applications. */
  lemma ChildrenTakeTheParentsTargets(parent: Spec, child: Spec)
    requires parent.kind == AutoScaling
    ensures var after := Propagated(parent, child);
            && after.children == child.children && |after.apps| == |child.apps|
            && (forall i | 0 <= i < |child.apps| ::
                  after.apps[i] == Application(child.apps[i].name,
                                               if parent.apps == [] then child.apps[i].targets else parent.apps[0].targets))
            && after.kind == if after.apps == child.apps then child.kind else AutoScaling
  {
    var after := Propagated(parent, child);
    if parent.apps != [] && !forall a | a in child.apps :: a.targets == parent.apps[0].targets {
      var a :| a in child.apps && a.targets != parent.apps[0].targets;
      var i :| 0 <= i < |child.apps| && child.apps[i] == a;
      assert after.apps[i] != child.apps[i];
    }
    assert forall i | 0 <= i < |child.apps| :: child.apps[i] in child.apps;
  }

  /** Targeted propagation touches nothing but targets. */
  lemma OnlyTargetsArePropagated(parent: Spec, child: Spec)
    requires parent.kind == Targeted
    ensures var after := Propagated(parent, child);
            && after.kind == child.kind && after.children == child.children && |after.apps| == |child.apps|
            && forall i | 0 <= i < |child.apps| :: after.apps[i].name == child.apps[i].name
  {
  }

  /** Running it again changes nothing, for either deployment type. */
  lemma PropagationIsIdempotent(parent: Spec, child: Spec)
    ensures var once := Propagated(parent, child); Propagated(parent, once) == once
  {
    var once := Propagated(parent, child);
    if parent.kind == Targeted {
      forall i | 0 <= i < |child.apps| ensures Propagated(parent, once).apps[i] == once.apps[i] {
        ChildrenReachTheParentsClusters(parent, child, i);
        UniqueKeepsClusters(AllTargets(parent.apps));
        ClustersOfAppsAre(parent.apps);
        NothingMissing(once.apps[i].targets, FirstOfEachCluster(AllTargets(parent.apps)));
      }
      assert Propagated(parent, once).apps == once.apps;
    }
  }
}
