/** The GitRepo objects of one Deployment, one per app, kept up to date by a loop that may
    fail at every call. */
module GitRepos {
  import opened Deployments

  datatype LabelKey = BundleName | BundleType | ActiveProject

  datatype GitRepo = GitRepo(
    labels: map<LabelKey, string>,
    url: string,
    paths: seq<string>,
    helmSecret: string,
    clientSecret: string,
    selectors: seq<map<string, string>>,
    caBundle: string,
    pollingInterval: int)

  type Repos = map<string, GitRepo>

  const BUNDLE_TYPE_APP := "app"
  const FLEET_GIT_SECRET := "fleet-gitrepo-cred"

  /** `bundle` is the hashed bundle name of the app. */
  datatype App = App(name: string, bundle: string, repoSecret: string, targets: seq<map<string, string>>)

  datatype Spec = Spec(id: string, project: Option<string>, apps: seq<App>, caCert: string, pollingInterval: int)

  datatype Call = List | Write(name: string) | Delete(name: string)

  // ---------------------------------------------------------------------------
  // Names
  // ---------------------------------------------------------------------------

  function RepoName(app: string, id: string): string {
    app + "-" + id
  }

  function TrimSuffix(s: string, suffix: string): string {
    if |suffix| <= |s| && s[|s| - |suffix|..] == suffix then s[..|s| - |suffix|] else s
  }

  function AppNameOf(repo: string, id: string): string {
    TrimSuffix(repo, "-" + id)
  }

  lemma TrimUndoesNaming(app: string, id: string)
    ensures AppNameOf(RepoName(app, id), id) == app
  {
    assert RepoName(app, id) == app + ("-" + id);
  }

  lemma NamesAreDistinct(a: string, b: string, id: string)
    ensures RepoName(a, id) == RepoName(b, id) <==> a == b
  {
    TrimUndoesNaming(a, id);
    TrimUndoesNaming(b, id);
  }

  ghost function Names(apps: seq<App>, id: string): set<string> {
    set a | a in apps :: RepoName(a.name, id)
  }

  ghost predicate Distinct(apps: seq<App>) {
    forall i, j | 0 <= i < j < |apps| :: apps[i].name != apps[j].name
  }

  // ---------------------------------------------------------------------------
  // What a GitRepo should be
  // ---------------------------------------------------------------------------

  /** An update keeps the paths, the polling interval, other labels, and the CA bundle unless a
      new one is given. */
  function Updated(repo: GitRepo, app: App, d: Spec, url: string): GitRepo {
    repo.(labels := repo.labels[BundleName := app.bundle],
          url := url,
          helmSecret := app.repoSecret,
          clientSecret := FLEET_GIT_SECRET,
          selectors := app.targets,
          caBundle := if d.caCert != "" then d.caCert else repo.caBundle)
  }

  function New(app: App, d: Spec, url: string): GitRepo {
    var labels := map[BundleName := app.bundle, BundleType := BUNDLE_TYPE_APP];
    GitRepo(match d.project case Some(p) => labels[ActiveProject := p] case None => labels,
            url, [app.name], app.repoSecret, FLEET_GIT_SECRET, app.targets, d.caCert, d.pollingInterval)
  }

  function Wanted(prior: Option<GitRepo>, app: App, d: Spec, url: string): GitRepo {
    match prior case Some(repo) => Updated(repo, app, d, url) case None => New(app, d, url)
  }

  function Find(repos: Repos, name: string): Option<GitRepo> {
    if name in repos then Some(repos[name]) else None
  }

  /** One repo per app, each as wanted, and no other. */
  ghost predicate Serves(before: Repos, after: Repos, d: Spec, url: string) {
    && after.Keys == Names(d.apps, d.id)
    && forall a | a in d.apps ::
         Find(after, RepoName(a.name, d.id)) == Some(Wanted(Find(before, RepoName(a.name, d.id)), a, d, url))
  }

  /** Where a run may be interrupted: some repos are as wanted, some are as before, and some
      that no app wants are gone. */
  ghost predicate OnTheWay(before: Repos, after: Repos, d: Spec, url: string) {
    && (forall n | n in after && n !in Names(d.apps, d.id) :: Find(before, n) == Find(after, n))
    && (forall n | n in Names(d.apps, d.id) && n in before :: n in after)
    && forall n | n in after && n in Names(d.apps, d.id) ::
         || Find(after, n) == Find(before, n)
         || exists a :: a in d.apps && RepoName(a.name, d.id) == n && after[n] == Wanted(Find(before, n), a, d, url)
  }

  /** Paths always name the app of the repo. */
  ghost predicate PathsMatch(repos: Repos, id: string) {
    forall n | n in repos :: repos[n].paths == [AppNameOf(n, id)] && RepoName(AppNameOf(n, id), id) == n
  }

  // ---------------------------------------------------------------------------
  // The loop
  // ---------------------------------------------------------------------------

  /** The calls that a run on `before` has to make. */
  ghost predicate CallsSucceed(before: Repos, d: Spec, fails: set<Call>) {
    && List !in fails
    && (forall a | a in d.apps :: Write(RepoName(a.name, d.id)) !in fails)
    && (forall n | n in before && n !in Names(d.apps, d.id) :: Delete(n) !in fails)
  }

  /** A new repo needs the project label of the Deployment. */
  ghost predicate Labelled(before: Repos, d: Spec) {
    d.project.Some? || forall a | a in d.apps :: RepoName(a.name, d.id) in before
  }

  /** Nothing keeps the loop from writing the first `i` apps. */
  ghost predicate MayWrite(before: Repos, d: Spec, i: nat, fails: set<Call>)
    requires i <= |d.apps|
  {
    && Distinct(d.apps[..i])
    && forall a | a in d.apps[..i] ::
         Write(RepoName(a.name, d.id)) !in fails && (d.project.Some? || RepoName(a.name, d.id) in before)
  }

  /** What the loop over the apps has made of `before` after the apps `done`. */
  ghost predicate Progress(before: Repos, after: Repos, done: seq<App>, d: Spec, url: string) {
    && (forall n | n !in Names(done, d.id) :: Find(after, n) == Find(before, n))
    && forall a | a in done ::
         Find(after, RepoName(a.name, d.id)) == Some(Wanted(Find(before, RepoName(a.name, d.id)), a, d, url))
  }

  lemma NamesOfMore(done: seq<App>, app: App, id: string)
    ensures Names(done + [app], id) == Names(done, id) + {RepoName(app.name, id)}
  {
    assert forall a :: a in done + [app] <==> a in done || a == app;
  }

  lemma ProgressIsOnTheWay(before: Repos, after: Repos, d: Spec, i: nat, url: string)
    requires i <= |d.apps| && Progress(before, after, d.apps[..i], d, url)
    ensures OnTheWay(before, after, d, url)
  {
    forall n | n in Names(d.apps[..i], d.id)
      ensures n in Names(d.apps, d.id) && n in after
      ensures exists a :: a in d.apps && RepoName(a.name, d.id) == n && after[n] == Wanted(Find(before, n), a, d, url)
    {
      var a :| a in d.apps[..i] && RepoName(a.name, d.id) == n;
      assert a in d.apps;
    }
    forall n | n !in Names(d.apps[..i], d.id) ensures Find(after, n) == Find(before, n) {
    }
  }

  /** An app name shows up for the second time exactly if its repo was already written. */
  lemma DistinctStep(apps: seq<App>, i: nat, id: string)
    requires i < |apps| && Distinct(apps[..i])
    ensures Distinct(apps[..i + 1]) <==> RepoName(apps[i].name, id) !in Names(apps[..i], id)
    ensures Distinct(apps) ==> Distinct(apps[..i + 1])
  {
    forall j | 0 <= j < i
      ensures apps[..i][j] == apps[j] && RepoName(apps[j].name, id) in Names(apps[..i], id)
      ensures RepoName(apps[j].name, id) == RepoName(apps[i].name, id) <==> apps[j].name == apps[i].name
    {
      assert apps[..i][j] in apps[..i];
      NamesAreDistinct(apps[j].name, apps[i].name, id);
    }
  }

  lemma MayWriteStep(before: Repos, d: Spec, i: nat, fails: set<Call>)
    requires i < |d.apps| && MayWrite(before, d, i, fails)
    ensures var name := RepoName(d.apps[i].name, d.id);
            MayWrite(before, d, i + 1, fails) <==>
              && name !in Names(d.apps[..i], d.id)
              && Write(name) !in fails && (d.project.Some? || name in before)
    ensures MayWrite(before, d, |d.apps|, fails) ==> MayWrite(before, d, i + 1, fails)
  {
    DistinctStep(d.apps, i, d.id);
    assert d.apps[..i + 1] == d.apps[..i] + [d.apps[i]];
    assert d.apps[..|d.apps|] == d.apps;
  }

  lemma ProgressDecides(before: Repos, after: Repos, d: Spec, i: nat, url: string)
    requires i < |d.apps| && Progress(before, after, d.apps[..i], d, url)
    ensures var name := RepoName(d.apps[i].name, d.id);
            if name in Names(d.apps[..i], d.id) then name in after else Find(after, name) == Find(before, name)
  {
    var name := RepoName(d.apps[i].name, d.id);
    if name in Names(d.apps[..i], d.id) {
      var a :| a in d.apps[..i] && RepoName(a.name, d.id) == name;
      assert Find(after, name).Some?;
    }
  }

  lemma ProgressStep(before: Repos, reached: Repos, after: Repos, d: Spec, i: nat, url: string)
    requires i < |d.apps| && Distinct(d.apps[..i + 1]) && Progress(before, reached, d.apps[..i], d, url)
    requires RepoName(d.apps[i].name, d.id) !in Names(d.apps[..i], d.id)
    requires var name := RepoName(d.apps[i].name, d.id);
             after == reached[name := Wanted(Find(before, name), d.apps[i], d, url)]
    ensures Progress(before, after, d.apps[..i + 1], d, url)
    ensures Names(d.apps[..i + 1], d.id) == Names(d.apps[..i], d.id) + {RepoName(d.apps[i].name, d.id)}
  {
    assert d.apps[..i + 1] == d.apps[..i] + [d.apps[i]];
    NamesOfMore(d.apps[..i], d.apps[i], d.id);
  }

  lemma PruningIsOnTheWay(before: Repos, written: Repos, after: Repos, d: Spec, url: string, done: bool)
    requires Progress(before, written, d.apps, d, url)
    requires forall n | n in Names(d.apps, d.id) :: Find(after, n) == Find(written, n)
    requires forall n | n in after :: Find(after, n) == Find(written, n)
    requires done ==> after.Keys <= Names(d.apps, d.id)
    ensures OnTheWay(before, after, d, url)
    ensures done ==> Serves(before, after, d, url)
  {
    assert d.apps[..|d.apps|] == d.apps;
    ProgressIsOnTheWay(before, written, d, |d.apps|, url);
    forall n | n in Names(d.apps, d.id) ensures n in after && Find(after, n) == Find(written, n) {
      var a :| a in d.apps && RepoName(a.name, d.id) == n;
      assert Find(written, n).Some?;
    }
    forall a | a in d.apps
      ensures Find(after, RepoName(a.name, d.id)) == Some(Wanted(Find(before, RepoName(a.name, d.id)), a, d, url))
    {
      assert RepoName(a.name, d.id) in Names(d.apps, d.id);
    }
  }

  class GitRepoController {
    /** The GitRepos that the Deployment owns, in the API server. */
    var repos: Repos

    /** Update or create the repo of one app. `known` says that the listing showed it. */
    method WriteRepo(app: App, known: Option<GitRepo>, d: Spec, url: string, fails: set<Call>) returns (ok: bool)
      requires known.Some? ==> Find(repos, RepoName(app.name, d.id)) == known
      modifies this
      ensures var name := RepoName(app.name, d.id);
              && (ok <==> Write(name) !in fails && (known.None? ==> d.project.Some? && name !in old(repos)))
              && repos == if ok then old(repos)[name := Wanted(known, app, d, url)] else old(repos)
    {
      var name := RepoName(app.name, d.id);
      if known.Some? {
        var repo := known.value;
        if d.caCert != "" {
          repo := repo.(caBundle := d.caCert);
        }
        repo := repo.(clientSecret := FLEET_GIT_SECRET,
                      labels := repo.labels[BundleName := app.bundle],
                      url := url, helmSecret := app.repoSecret, selectors := app.targets);
        if Write(name) in fails {
          return false;
        }
        repos := repos[name := repo];
      } else {
        var labels := map[BundleName := app.bundle, BundleType := BUNDLE_TYPE_APP];
        if d.project.None? {
          return false;
        }
        labels := labels[ActiveProject := d.project.value];
        var repo := GitRepo(labels, url, [app.name], app.repoSecret, FLEET_GIT_SECRET, app.targets, "", d.pollingInterval);
        if d.caCert != "" {
          repo := repo.(caBundle := d.caCert);
        }
        if Write(name) in fails || name in repos {
          return false;
        }
        repos := repos[name := repo];
      }
      return true;
    }

    method Prune(left: Repos, fails: set<Call>) returns (ok: bool)
      requires left.Keys <= repos.Keys
      modifies this
      ensures ok <==> forall n | n in left :: Delete(n) !in fails
      ensures forall n | n !in left :: Find(repos, n) == Find(old(repos), n)
      ensures forall n | n in repos :: Find(repos, n) == Find(old(repos), n)
      ensures ok ==> repos.Keys == old(repos).Keys - left.Keys
    {
      ghost var before := repos;
      var todo := left.Keys;
      while todo != {}
        invariant todo <= left.Keys
        invariant forall n | n in left && n !in todo :: Delete(n) !in fails
        invariant repos == before - (left.Keys - todo)
        decreases todo
      {
        var n :| n in todo;
        if Delete(n) in fails {
          return false;
        }
        repos := repos - {n};
        todo := todo - {n};
      }
      return true;
    }

    /** Stops at the first app that cannot be written; `left` are the repos of no app. */
    method WriteRepos(d: Spec, url: string, fails: set<Call>) returns (ok: bool, left: Repos)
      modifies this
      ensures ok <==> MayWrite(old(repos), d, |d.apps|, fails)
      ensures OnTheWay(old(repos), repos, d, url)
      ensures ok ==> Progress(old(repos), repos, d.apps, d, url) && left == old(repos) - Names(d.apps, d.id)
    {
      ghost var before := repos;
      left := repos;
      for i := 0 to |d.apps|
        invariant MayWrite(before, d, i, fails)
        invariant Progress(before, repos, d.apps[..i], d, url)
        invariant left == before - Names(d.apps[..i], d.id)
      {
        var app := d.apps[i];
        var name := RepoName(app.name, d.id);
        var known := Find(left, name);
        left := left - {name};
        ghost var reached := repos;
        ProgressDecides(before, reached, d, i, url);
        MayWriteStep(before, d, i, fails);
        ok := WriteRepo(app, known, d, url, fails);
        if !ok {
          ProgressIsOnTheWay(before, repos, d, i, url);
          return;
        }
        ProgressStep(before, reached, repos, d, i, url);
      }
      assert d.apps[..|d.apps|] == d.apps;
      ProgressIsOnTheWay(before, repos, d, |d.apps|, url);
      ok := true;
    }

    method ReconcileGitRepo(d: Spec, url: Option<string>, fails: set<Call>) returns (ok: bool)
      modifies this
      ensures ok <==>
                && url.Some? && List !in fails
                && (forall i, j | 0 <= i < j < |d.apps| :: d.apps[i].name != d.apps[j].name)
                && (d.project.Some? || forall a | a in d.apps :: a.name + "-" + d.id in old(repos))
                && (forall a | a in d.apps :: Write(a.name + "-" + d.id) !in fails)
                && (forall n | n in old(repos) && n !in Names(d.apps, d.id) :: Delete(n) !in fails)
      ensures url.None? ==> repos == old(repos)
      ensures url.Some? ==> OnTheWay(old(repos), repos, d, url.value)
      ensures ok ==> Serves(old(repos), repos, d, url.value)
    {
      if url.None? || List in fails {
        return false;
      }
      ghost var before := repos;
      var left;
      ok, left := WriteRepos(d, url.value, fails);
      assert d.apps[..|d.apps|] == d.apps;
      if ok {
        ghost var written := repos;
        ok := Prune(left, fails);
        PruningIsOnTheWay(before, written, repos, d, url.value, ok);
      }
    }
  }

  // ---------------------------------------------------------------------------
  // Convergence
  // ---------------------------------------------------------------------------

  /** Interrupted or not, no run breaks the paths, although updates never write them. */
  lemma PathsStayMatched(before: Repos, after: Repos, d: Spec, url: string)
    requires PathsMatch(before, d.id) && OnTheWay(before, after, d, url)
    ensures PathsMatch(after, d.id)
  {
    forall n | n in after ensures after[n].paths == [AppNameOf(n, d.id)] && RepoName(AppNameOf(n, d.id), d.id) == n {
      if Find(after, n) != Find(before, n) {
        var a :| a in d.apps && RepoName(a.name, d.id) == n && after[n] == Wanted(Find(before, n), a, d, url);
        TrimUndoesNaming(a.name, d.id);
      }
    }
  }

  lemma SuccessIsOnTheWay(before: Repos, after: Repos, d: Spec, url: string)
    requires Serves(before, after, d, url)
    ensures OnTheWay(before, after, d, url)
  {
    forall n | n in after
      ensures exists a :: a in d.apps && RepoName(a.name, d.id) == n && after[n] == Wanted(Find(before, n), a, d, url)
    {
      var a :| a in d.apps && RepoName(a.name, d.id) == n;
      assert Find(after, n) == Some(Wanted(Find(before, n), a, d, url));
    }
  }

  lemma SameNameSameApp(a: App, b: App, d: Spec)
    requires Distinct(d.apps) && a in d.apps && b in d.apps && RepoName(a.name, d.id) == RepoName(b.name, d.id)
    ensures a == b
  {
    NamesAreDistinct(a.name, b.name, d.id);
    var i :| 0 <= i < |d.apps| && d.apps[i] == a;
    var j :| 0 <= j < |d.apps| && d.apps[j] == b;
    assert i == j;
  }

  lemma WantedTwice(prior: Option<GitRepo>, app: App, d: Spec, url: string)
    ensures Wanted(Some(Wanted(prior, app, d, url)), app, d, url) == Wanted(prior, app, d, url)
  {
    var repo := Wanted(prior, app, d, url);
    assert repo.labels[BundleName := app.bundle] == repo.labels;
  }

  /** Success after an interrupted run is success from before that run. */
  lemma InterruptionsLeaveNoTrace(before: Repos, interrupted: Repos, after: Repos, d: Spec, url: string)
    requires Distinct(d.apps) && OnTheWay(before, interrupted, d, url) && Serves(interrupted, after, d, url)
    ensures Serves(before, after, d, url)
  {
    forall a | a in d.apps
      ensures Find(after, RepoName(a.name, d.id)) == Some(Wanted(Find(before, RepoName(a.name, d.id)), a, d, url))
    {
      var n := RepoName(a.name, d.id);
      assert n in Names(d.apps, d.id);
      if Find(interrupted, n) != Find(before, n) {
        var b :| b in d.apps && RepoName(b.name, d.id) == n && interrupted[n] == Wanted(Find(before, n), b, d, url);
        SameNameSameApp(a, b, d);
        WantedTwice(Find(before, n), a, d, url);
      }
    }
  }

  lemma ServesIsExact(before: Repos, x: Repos, y: Repos, d: Spec, url: string)
    requires Serves(before, x, d, url) && Serves(before, y, d, url)
    ensures x == y
  {
    forall n | n in x ensures n in y && x[n] == y[n] {
      var a :| a in d.apps && RepoName(a.name, d.id) == n;
      assert Find(x, n) == Find(y, n);
    }
  }

  /** However many runs fail, and wherever, the first one that succeeds ends where the very
      first run would have ended without failures; one more changes nothing. */
  lemma {:induction false} RetriesConverge(attempts: seq<Repos>, after: Repos, d: Spec, url: string)
    requires Distinct(d.apps) && attempts != []
    requires forall i, j | 0 <= i && j == i + 1 < |attempts| :: OnTheWay(attempts[i], attempts[j], d, url)
    requires Serves(attempts[|attempts| - 1], after, d, url)
    ensures Serves(attempts[0], after, d, url)
    ensures forall direct | Serves(attempts[0], direct, d, url) :: direct == after
    ensures forall again | Serves(after, again, d, url) :: again == after
  {
    var n := |attempts|;
    if n > 1 {
      InterruptionsLeaveNoTrace(attempts[n - 2], attempts[n - 1], after, d, url);
      RetriesConverge(attempts[..n - 1], after, d, url);
    } else {
      SuccessIsOnTheWay(attempts[0], after, d, url);
      forall again | Serves(after, again, d, url) ensures again == after {
        InterruptionsLeaveNoTrace(attempts[0], after, again, d, url);
        ServesIsExact(attempts[0], after, again, d, url);
      }
    }
    forall direct | Serves(attempts[0], direct, d, url) ensures direct == after {
      ServesIsExact(attempts[0], direct, after, d, url);
    }
  }

  /** Nothing that a run leaves behind can make a label problem out of a good Deployment. */
  lemma RetriesStayPossible(before: Repos, interrupted: Repos, d: Spec, url: string)
    requires Labelled(before, d) && OnTheWay(before, interrupted, d, url)
    ensures Labelled(interrupted, d) && CallsSucceed(interrupted, d, {})
  {
    if d.project.None? {
      forall a | a in d.apps ensures RepoName(a.name, d.id) in interrupted {
        assert RepoName(a.name, d.id) in Names(d.apps, d.id);
      }
    }
  }

  /** What success means for each app. */
  lemma SuccessServesEveryApp(before: Repos, after: Repos, d: Spec, url: string, app: App)
    requires PathsMatch(before, d.id) && Serves(before, after, d, url) && app in d.apps
    ensures var name := RepoName(app.name, d.id);
            && name in after
            && var repo := after[name];
            && repo.url == url && repo.paths == [app.name] && repo.selectors == app.targets
            && repo.helmSecret == app.repoSecret && repo.clientSecret == "fleet-gitrepo-cred"
            && BundleName in repo.labels && repo.labels[BundleName] == app.bundle
            && (d.caCert != "" ==> repo.caBundle == d.caCert)
            && (name in before ==>
                  && repo.labels - {BundleName} == before[name].labels - {BundleName}
                  && repo.pollingInterval == before[name].pollingInterval
                  && (d.caCert == "" ==> repo.caBundle == before[name].caBundle))
            && (name !in before ==>
                  && repo.labels.Keys - {ActiveProject} == {BundleName, BundleType} && repo.labels[BundleType] == "app"
                  && (if d.project.Some? then ActiveProject in repo.labels && repo.labels[ActiveProject] == d.project.value
                      else ActiveProject !in repo.labels)
                  && repo.pollingInterval == d.pollingInterval && repo.caBundle == d.caCert)
  {
    var name := RepoName(app.name, d.id);
    TrimUndoesNaming(app.name, d.id);
    assert Find(after, name) == Some(Wanted(Find(before, name), app, d, url));
  }
}
