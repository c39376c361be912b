/** The target list of an application under auto-scaling: label sets accumulate from one
    update request to the next. */
module AutoScalingTargets {

  type Labels = map<string, string>

  const PROJECT_ID := "edge-orchestrator.intel.com/project-id"

  /** One entry of the request, and one application of the stored Deployment. */
  datatype TargetCluster = TargetCluster(appName: string, labels: Labels)

  datatype Application = Application(name: string, targets: seq<Labels>)

  // ---------------------------------------------------------------------------
  // What one requested label set does to the list
  // ---------------------------------------------------------------------------

  /** The key/value pairs of the list, the project apart. */
  function Pairs(list: seq<Labels>): set<(string, string)> {
    set t, k | t in list && k in t && k != PROJECT_ID :: (k, t[k])
  }

  predicate IsNew(list: seq<Labels>, labels: Labels, k: string)
    requires k in labels
  {
    k != PROJECT_ID && (k, labels[k]) !in Pairs(list)
  }

  ghost predicate HasNew(list: seq<Labels>, labels: Labels) {
    exists k :: k in labels && IsNew(list, labels, k)
  }

  /** The new pairs of `labels`, with the project. */
  function NewPart(list: seq<Labels>, labels: Labels): Labels {
    map k | k in labels && (k == PROJECT_ID || IsNew(list, labels, k)) :: labels[k]
  }

  ghost function Added(list: seq<Labels>, labels: Labels, update: bool): seq<Labels> {
    if labels in list then list
    else if update && list != [] && HasNew(list, labels) then list + [NewPart(list, labels)]
    else list + [labels]
  }

  ghost function Merged(list: seq<Labels>, requests: seq<Labels>, update: bool): seq<Labels>
    decreases |requests|
  {
    if requests == [] then list else Merged(Added(list, requests[0], update), requests[1..], update)
  }

  function RequestsFor(app: string, requested: seq<TargetCluster>): seq<Labels> {
    if requested == [] then []
    else (if requested[0].appName == app then [requested[0].labels] else []) + RequestsFor(app, requested[1..])
  }

  function StoredTargets(app: string, stored: seq<Application>): seq<Labels> {
    if stored == [] then []
    else if stored[0].name == app then stored[0].targets
    else StoredTargets(app, stored[1..])
  }

  ghost function TargetsOf(app: string, requested: seq<TargetCluster>, update: bool, stored: seq<Application>): seq<Labels> {
    Merged(if update then StoredTargets(app, stored) else [], RequestsFor(app, requested), update)
  }

  // ---------------------------------------------------------------------------
  // The code
  // ---------------------------------------------------------------------------

  method LabelsMatch(a: Labels, b: Labels) returns (same: bool)
    ensures same <==> a == b
  {
    if |a| != |b| {
      return false;
    }
    var todo := a.Keys;
    while todo != {}
      invariant todo <= a.Keys
      invariant forall k | k in a && k !in todo :: k in b && b[k] == a[k]
      decreases todo
    {
      var k :| k in todo;
      if k !in b || b[k] != a[k] {
        return false;
      }
      todo := todo - {k};
    }
    assert |a.Keys| == |a| && |b.Keys| == |b|;
    SameSizeSubset(a.Keys, b.Keys);
    assert a.Keys == b.Keys && forall k | k in a :: a[k] == b[k];
    assert a == b;
    return true;
  }

  lemma {:induction false} SameSizeSubset(a: set<string>, b: set<string>)
    requires a <= b
    ensures |a| <= |b| && (|a| == |b| ==> a == b)
  {
    if x :| x in a {
      SameSizeSubset(a - {x}, b - {x});
      assert b == (b - {x}) + {x};
    }
  }

  /** The pairs as the code holds them: the values seen under each key. */
  ghost predicate Indexes(index: map<string, set<string>>, list: seq<Labels>) {
    && (forall k, v | k in index && v in index[k] :: (k, v) in Pairs(list))
    && (forall t, k | t in list && k in t && k != PROJECT_ID :: k in index && t[k] in index[k])
  }

  method CollectPairs(list: seq<Labels>) returns (index: map<string, set<string>>)
    ensures Indexes(index, list)
  {
    index := map[];
    for i := 0 to |list|
      invariant Indexes(index, list[..i])
    {
      ghost var before := list[..i];
      assert list[..i + 1] == before + [list[i]];
      assert Pairs(before + [list[i]]) == Pairs(before) + Pairs([list[i]]);
      var todo := list[i].Keys;
      while todo != {}
        invariant todo <= list[i].Keys
        invariant forall k, v | k in index && v in index[k] :: (k, v) in Pairs(before) + Pairs([list[i]])
        invariant forall t, k | t in before && k in t && k != PROJECT_ID :: k in index && t[k] in index[k]
        invariant forall k | k in list[i] && k !in todo && k != PROJECT_ID :: k in index && list[i][k] in index[k]
        decreases todo
      {
        var k :| k in todo;
        if k != PROJECT_ID {
          var values := if k in index then index[k] else {};
          index := index[k := values + {list[i][k]}];
        }
        todo := todo - {k};
      }
    }
    assert list[..|list|] == list;
  }

  method ExtractNew(index: map<string, set<string>>, labels: Labels, ghost list: seq<Labels>)
    returns (part: Labels, hasNew: bool)
    requires Indexes(index, list)
    ensures part == NewPart(list, labels)
    ensures hasNew <==> HasNew(list, labels)
  {
    part, hasNew := map[], false;
    var todo := labels.Keys;
    while todo != {}
      invariant todo <= labels.Keys
      invariant part == map k | k in labels && k !in todo && (k == PROJECT_ID || IsNew(list, labels, k)) :: labels[k]
      invariant hasNew <==> exists k :: k in labels && k !in todo && IsNew(list, labels, k)
      decreases todo
    {
      var k :| k in todo;
      if k == PROJECT_ID {
        part := part[k := labels[k]];
      } else if k !in index || labels[k] !in index[k] {
        assert IsNew(list, labels, k);
        part := part[k := labels[k]];
        hasNew := true;
      } else {
        assert !IsNew(list, labels, k);
      }
      todo := todo - {k};
    }
  }

  method AddTarget(list: seq<Labels>, labels: Labels, update: bool) returns (result: seq<Labels>)
    ensures result == Added(list, labels, update)
  {
    var exact := false;
    var i := 0;
    while i < |list| && !exact
      invariant 0 <= i <= |list|
      invariant exact ==> labels in list
      invariant !exact ==> labels !in list[..i]
    {
      exact := LabelsMatch(list[i], labels);
      i := i + 1;
    }
    assert list[..|list|] == list;
    result := list;
    if exact {
      return;
    }
    if update && |list| > 0 {
      var index := CollectPairs(list);
      var part, hasNew := ExtractNew(index, labels, list);
      if hasNew {
        return list + [part];
      }
    }
    result := list + [labels];
  }

  /** The target list that createDeploymentCr gives to an application of an auto-scaling
      Deployment. */
  method TargetsFor(app: string, requested: seq<TargetCluster>, update: bool, stored: seq<Application>)
    returns (targets: seq<Labels>)
    ensures targets == TargetsOf(app, requested, update, stored)
  {
    targets := [];
    if update {
      var i := 0;
      while i < |stored| && stored[i].name != app
        invariant 0 <= i <= |stored|
        invariant StoredTargets(app, stored) == StoredTargets(app, stored[i..])
      {
        assert stored[i..][1..] == stored[i + 1..];
        i := i + 1;
      }
      if i < |stored| {
        targets := targets + stored[i].targets;
      }
    }
    assert targets == if update then StoredTargets(app, stored) else [];
    ghost var start := targets;
    assert requested[0..] == requested;
    for j := 0 to |requested|
      invariant Merged(start, RequestsFor(app, requested), update) ==
                Merged(targets, RequestsFor(app, requested[j..]), update)
    {
      assert requested[j..][1..] == requested[j + 1..];
      if requested[j].appName == app {
        ghost var rest := RequestsFor(app, requested[j + 1..]);
        assert ([requested[j].labels] + rest)[1..] == rest;
        targets := AddTarget(targets, requested[j].labels, update);
      } else {
        assert [] + RequestsFor(app, requested[j + 1..]) == RequestsFor(app, requested[j + 1..]);
      }
    }
  }

  // ---------------------------------------------------------------------------
  // What a whole request does
  // ---------------------------------------------------------------------------

  ghost predicate Distinct(list: seq<Labels>) {
    forall i, j | 0 <= i < j < |list| :: list[i] != list[j]
  }

  lemma PairsOfConcat(a: seq<Labels>, b: seq<Labels>)
    ensures Pairs(a + b) == Pairs(a) + Pairs(b)
  {
  }

  lemma AddedKeepsShape(list: seq<Labels>, labels: Labels, update: bool)
    ensures list <= Added(list, labels, update)
    ensures Distinct(list) ==> Distinct(Added(list, labels, update))
    ensures Pairs(Added(list, labels, update)) == Pairs(list) + Pairs([labels])
    ensures Pairs([labels]) <= Pairs(list) ==> labels in Added(list, labels, update)
  {
    if labels in list {
      assert Pairs([labels]) <= Pairs(list);
    } else if update && list != [] && HasNew(list, labels) {
      var part := NewPart(list, labels);
      PairsOfConcat(list, [part]);
      var k :| k in labels && IsNew(list, labels, k);
      assert part[k] == labels[k] && (k, part[k]) !in Pairs(list);
      assert part !in list;
      assert forall k | k in labels && k != PROJECT_ID && (k, labels[k]) !in Pairs(list) :: k in part && part[k] == labels[k];
      assert (k, labels[k]) in Pairs([labels]);
    } else {
      PairsOfConcat(list, [labels]);
    }
  }

  /** The stored targets stay in front and stay as they are, no two targets become equal,
      and up to the project the pairs are those stored and those requested, nothing else. */
  lemma {:induction false} MergeAccumulates(list: seq<Labels>, requests: seq<Labels>, update: bool)
    ensures list <= Merged(list, requests, update)
    ensures Distinct(list) ==> Distinct(Merged(list, requests, update))
    ensures Pairs(Merged(list, requests, update)) == Pairs(list) + Pairs(requests)
    decreases |requests|
  {
    if requests == [] {
    } else {
      AddedKeepsShape(list, requests[0], update);
      MergeAccumulates(Added(list, requests[0], update), requests[1..], update);
      PairsOfConcat([requests[0]], requests[1..]);
      assert [requests[0]] + requests[1..] == requests;
    }
  }

  /** An added target repeats none of the pairs that were there before, unless it is one of
      the requested label sets as a whole. */
  lemma {:induction false} AddedTargetsAreNewOrWhole(list: seq<Labels>, requests: seq<Labels>, update: bool, i: nat)
    requires |list| <= i < |Merged(list, requests, update)|
    ensures var added := Merged(list, requests, update)[i];
            || added in requests
            || (update && Pairs([added]) != {} && Pairs([added]) !! Pairs(list)
                && exists r :: r in requests && added.Items <= r.Items)
    decreases |requests|
  {
    if requests == [] {
    } else {
      var next := Added(list, requests[0], update);
      AddedKeepsShape(list, requests[0], update);
      MergeAccumulates(next, requests[1..], update);
      if i < |next| {
        assert Merged(list, requests, update)[i] == next[i];
        if next[i] != requests[0] {
          var k :| k in requests[0] && IsNew(list, requests[0], k);
          assert k in next[i] && (k, next[i][k]) in Pairs([next[i]]);
          assert next[i].Items <= requests[0].Items;
        }
      } else {
        AddedTargetsAreNewOrWhole(next, requests[1..], update, i);
        assert Pairs(list) <= Pairs(next);
      }
    }
  }

  lemma {:induction false} KnownRequestsChangeNothing(list: seq<Labels>, requests: seq<Labels>, update: bool)
    requires forall r | r in requests :: r in list
    ensures Merged(list, requests, update) == list
    decreases |requests|
  {
    if requests != [] {
      KnownRequestsChangeNothing(list, requests[1..], update);
    }
  }

  lemma {:induction false} KnownPairsAreEnteredWhole(list: seq<Labels>, requests: seq<Labels>, update: bool)
    requires Pairs(requests) <= Pairs(list)
    ensures forall r | r in requests :: r in Merged(list, requests, update)
    decreases |requests|
  {
    if requests == [] {
    } else {
      var next := Added(list, requests[0], update);
      PairsOfConcat([requests[0]], requests[1..]);
      assert [requests[0]] + requests[1..] == requests;
      AddedKeepsShape(list, requests[0], update);
      KnownPairsAreEnteredWhole(next, requests[1..], update);
      MergeAccumulates(next, requests[1..], update);
      assert requests[0] in next;
    }
  }

  /** Sending one request again and again changes nothing after the second time. */
  lemma TwoApplicationsSuffice(list: seq<Labels>, requests: seq<Labels>)
    ensures var once := Merged(list, requests, true);
            var twice := Merged(once, requests, true);
            Merged(twice, requests, true) == twice
  {
    var once := Merged(list, requests, true);
    MergeAccumulates(list, requests, true);
    KnownPairsAreEnteredWhole(once, requests, true);
    KnownRequestsChangeNothing(Merged(once, requests, true), requests, true);
  }

  /** The pairs of `r` are all known, or none of them is. */
  ghost predicate AllOrNothing(r: Labels, seen: set<(string, string)>) {
    Pairs([r]) <= seen || Pairs([r]) !! seen
  }

  /** At place `j` of the request, all pairs of `r` have been seen before, in the stored list or
      earlier in the request, or none has. */
  ghost predicate EntersAt(list: seq<Labels>, requests: seq<Labels>, r: Labels, j: nat) {
    j < |requests| && requests[j] == r && AllOrNothing(r, Pairs(list) + Pairs(requests[..j]))
  }

  /** At one of its places. */
  ghost predicate EntersWhole(list: seq<Labels>, requests: seq<Labels>, r: Labels) {
    exists j: nat :: EntersAt(list, requests, r, j)
  }

  lemma AddedWholeIff(list: seq<Labels>, r: Labels)
    ensures r in Added(list, r, true) <==> AllOrNothing(r, Pairs(list))
  {
    if r in list {
      assert Pairs([r]) <= Pairs(list);
    } else if list != [] && HasNew(list, r) {
      var k :| k in r && IsNew(list, r, k);
      assert (k, r[k]) in Pairs([r]) && Added(list, r, true) == list + [NewPart(list, r)];
      if Pairs([r]) !! Pairs(list) {
        assert forall k | k in r && k != PROJECT_ID :: (k, r[k]) in Pairs([r]) && IsNew(list, r, k);
        assert NewPart(list, r) == r;
      } else {
        var pair :| pair in Pairs([r]) && pair in Pairs(list);
        assert pair.0 !in NewPart(list, r) && pair.0 in r;
      }
    } else {
      assert r in list + [r];
      assert list == [] ==> Pairs(list) == {};
    }
  }

  lemma EntersLater(list: seq<Labels>, requests: seq<Labels>, r: Labels, j: nat)
    requires requests != []
    ensures EntersAt(list, requests, r, j + 1) <==> EntersAt(Added(list, requests[0], true), requests[1..], r, j)
  {
    var rest := requests[1..];
    AddedKeepsShape(list, requests[0], true);
    if j < |rest| {
      assert requests[..j + 1] == [requests[0]] + rest[..j];
      PairsOfConcat([requests[0]], rest[..j]);
      SameSeen(Pairs(list), Pairs([requests[0]]), Pairs(rest[..j]));
    }
  }

  lemma SameSeen(a: set<(string, string)>, b: set<(string, string)>, c: set<(string, string)>)
    ensures (a + b) + c == a + (b + c)
  {
  }

  lemma EntersWholeSplits(list: seq<Labels>, requests: seq<Labels>, r: Labels)
    requires requests != []
    ensures EntersWhole(list, requests, r) <==>
              || (requests[0] == r && AllOrNothing(r, Pairs(list)))
              || EntersWhole(Added(list, requests[0], true), requests[1..], r)
  {
    assert Pairs(requests[..0]) == {} && Pairs(list) + {} == Pairs(list);
    assert EntersAt(list, requests, r, 0) <==> requests[0] == r && AllOrNothing(r, Pairs(list));
    var next, rest := Added(list, requests[0], true), requests[1..];
    if j: nat :| EntersAt(list, requests, r, j) && j > 0 {
      EntersLater(list, requests, r, j - 1);
    }
    if j: nat :| EntersAt(next, rest, r, j) {
      EntersLater(list, requests, r, j);
      assert EntersAt(list, requests, r, j + 1);
    }
  }

  /** Which requested label sets one application leaves in the list as a whole. */
  lemma {:induction false} WholeIff(list: seq<Labels>, requests: seq<Labels>, r: Labels)
    requires r in requests
    ensures r in Merged(list, requests, true) <==> EntersWhole(list, requests, r)
    decreases |requests|
  {
    var next, rest := Added(list, requests[0], true), requests[1..];
    EntersWholeSplits(list, requests, r);
    MergeAccumulates(next, rest, true);
    AddedWholeIff(list, requests[0]);
    AddedKeepsShape(list, requests[0], true);
    if r in rest {
      WholeIff(next, rest, r);
    } else if i :| 0 <= i < |Merged(next, rest, true)| && Merged(next, rest, true)[i] == r {
      if i >= |next| {
        AddedTargetsAreNewOrWhole(next, rest, true, i);
      }
      assert r in next;
    }
  }

  /** One application is enough exactly when every requested label set meets, at one of its
      places in the request, only pairs seen before or only new ones. */
  lemma OneApplicationSufficesIff(list: seq<Labels>, requests: seq<Labels>)
    ensures var once := Merged(list, requests, true);
            Merged(once, requests, true) == once <==> forall r | r in requests :: EntersWhole(list, requests, r)
  {
    var once := Merged(list, requests, true);
    MergeAccumulates(list, requests, true);
    forall r | r in requests ensures r in once <==> EntersWhole(list, requests, r) {
      WholeIff(list, requests, r);
    }
    if forall r | r in requests :: r in once {
      KnownRequestsChangeNothing(once, requests, true);
    }
    KnownPairsAreEnteredWhole(once, requests, true);
  }

  /** It is not enough when a request widens a stored label set. */
  lemma OneApplicationMayNotSuffice()
    ensures var list, wider := [map["app" := "test"]], map["app" := "test", "user" := "customer"];
            var once := Merged(list, [wider], true);
            once == list + [map["user" := "customer"]] && Merged(once, [wider], true) == once + [wider]
  {
    var list, wider := [map["app" := "test"]], map["app" := "test", "user" := "customer"];
    assert ("app", list[0]["app"]) in Pairs(list);
    assert !IsNew(list, wider, "app") && IsNew(list, wider, "user");
    var part := map["user" := "customer"];
    assert NewPart(list, wider) == part;
    var once := list + [part];
    assert Merged(list, [wider], true) == Merged(once, [], true);
    assert once[1] == part && ("user", part["user"]) in Pairs(once) && ("app", list[0]["app"]) in Pairs(once) by {
      assert once[0] == list[0];
    }
    assert Merged(once, [wider], true) == Merged(once + [wider], [], true);
  }

  // ---------------------------------------------------------------------------
  // Whose targets these are
  // ---------------------------------------------------------------------------

  /** An update starts from the targets of the first stored application of the name, if there is
      one; a create starts from nothing. */
  ghost predicate StartsFrom(app: string, update: bool, stored: seq<Application>, start: seq<Labels>) {
    if update && exists i :: 0 <= i < |stored| && stored[i].name == app then
      exists i :: 0 <= i < |stored| && stored[i].name == app && (forall j | 0 <= j < i :: stored[j].name != app)
                  && start == stored[i].targets
    else start == []
  }

  lemma {:induction false} StoredTargetsAre(app: string, stored: seq<Application>)
    ensures StartsFrom(app, true, stored, StoredTargets(app, stored))
  {
    if stored != [] && stored[0].name != app {
      var rest := stored[1..];
      StoredTargetsAre(app, rest);
      assert forall j | 0 <= j < |rest| :: rest[j] == stored[j + 1];
      if i :| 0 <= i < |rest| && rest[i].name == app && (forall j | 0 <= j < i :: rest[j].name != app)
              && StoredTargets(app, rest) == rest[i].targets {
        assert stored[i + 1].name == app && forall j | 0 <= j < i + 1 :: stored[j].name != app by {
          forall j | 0 < j < i + 1 ensures stored[j].name != app {
            assert stored[j] == rest[j - 1];
          }
        }
      }
    }
  }

  lemma {:induction false} RequestsForAre(app: string, requested: seq<TargetCluster>, labels: Labels)
    ensures labels in RequestsFor(app, requested) <==> exists t :: t in requested && t.appName == app && t.labels == labels
  {
    if requested != [] {
      var rest := requested[1..];
      RequestsForAre(app, rest, labels);
      assert requested == [requested[0]] + rest;
    }
  }

  /** The pairs, the project apart, of the entries that name the application. */
  ghost function RequestedPairs(app: string, requested: seq<TargetCluster>): set<(string, string)> {
    set t, k | t in requested && t.appName == app && k in t.labels && k != PROJECT_ID :: (k, t.labels[k])
  }

  lemma RequestedPairsAre(app: string, requested: seq<TargetCluster>)
    ensures Pairs(RequestsFor(app, requested)) == RequestedPairs(app, requested)
  {
    forall x | x in Pairs(RequestsFor(app, requested)) ensures x in RequestedPairs(app, requested) {
      var labels, k :| labels in RequestsFor(app, requested) && k in labels && k != PROJECT_ID && x == (k, labels[k]);
      RequestsForAre(app, requested, labels);
    }
    forall x | x in RequestedPairs(app, requested) ensures x in Pairs(RequestsFor(app, requested)) {
      var t, k :| t in requested && t.appName == app && k in t.labels && k != PROJECT_ID && x == (k, t.labels[k]);
      RequestsForAre(app, requested, t.labels);
    }
  }

  lemma HasMember(list: seq<Labels>)
    ensures list == [] || list[0] in list
  {
  }

  /** The targets of an application are those it starts from, followed by what the entries that
      name it add; entries of other applications add nothing to it. */
  lemma TargetsAreItsOwn(app: string, requested: seq<TargetCluster>, update: bool, stored: seq<Application>)
    returns (start: seq<Labels>)
    ensures StartsFrom(app, update, stored, start)
    ensures var targets := TargetsOf(app, requested, update, stored);
            && start <= targets && (Distinct(start) ==> Distinct(targets))
            && Pairs(targets) == Pairs(start) + RequestedPairs(app, requested)
            && ((forall t | t in requested :: t.appName != app) ==> targets == start)
            && (forall i | |start| <= i < |targets| ::
                  || (exists t :: t in requested && t.appName == app && t.labels == targets[i])
                  || (update && exists t :: t in requested && t.appName == app && targets[i].Items <= t.labels.Items))
  {
    start := if update then StoredTargets(app, stored) else [];
    StoredTargetsAre(app, stored);
    var requests := RequestsFor(app, requested);
    MergeAccumulates(start, requests, update);
    RequestedPairsAre(app, requested);
    forall labels ensures labels in requests <==> exists t :: t in requested && t.appName == app && t.labels == labels {
      RequestsForAre(app, requested, labels);
    }
    if forall t | t in requested :: t.appName != app {
      assert forall labels :: labels !in requests;
      HasMember(requests);
    }
    forall i | |start| <= i < |TargetsOf(app, requested, update, stored)|
      ensures var added := TargetsOf(app, requested, update, stored)[i];
              || (exists t :: t in requested && t.appName == app && t.labels == added)
              || (update && exists t :: t in requested && t.appName == app && added.Items <= t.labels.Items)
    {
      AddedTargetsAreNewOrWhole(start, requests, update, i);
    }
  }
}
