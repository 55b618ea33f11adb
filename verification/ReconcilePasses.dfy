/** What a whole pass of the GitRepository reconciler amounts to: the loop over its targets, or, if
    anything stands in its way, nothing at all. */
module ReconcilePasses {
  import opened Wrappers
  import opened GoTime
  import opened Names
  import opened McpStore
  import opened PlatformStore
  import opened McpAccess
  import opened AccessRequests
  import opened Propagate
  import opened StatusList
  import opened Deadlines
  import opened Controller
  import opened GitRepositoryController
  import opened TokenValidity
  import opened Convergence
  import AppInstallations
  import GitHubInstances
  import Credentials

  /** When a pass starts and how its calls turn out. */
  datatype PassInput = PassInput(now: Instant, calls: PassCalls)

  function PassAt(w: World, repo: ObjectKey, env: Env, input: PassInput): Pass {
    ReconcilePass(w, repo, env, input.now, input.calls)
  }

  // ---- Passes keep every request at the right cluster ----

  lemma {:induction false} CleaningOnlyRemoves(requests: Requests, mcps: map<ObjectKey, Mcp>, env: Env, repo: ObjectKey,
                                               targets: seq<ResolvedTarget>, calls: PassCalls)
    ensures var after := CleanAll(requests, mcps, env, repo, targets, calls).requests;
      forall name :: name in after ==> name in requests && after[name] == requests[name]
  {
    if targets == [] {
    } else {
      hide RequestName, RemovalOf;
      CleaningOnlyRemoves(requests, mcps, env, repo, targets[..|targets| - 1], calls);
    }
  }

  lemma FewerRequestsStayRight(requests: Requests, fewer: Requests, lib: Library, pairs: iset<Pair>)
    requires RightClusters(requests, lib, pairs)
    requires forall name :: name in fewer ==> name in requests && fewer[name] == requests[name]
    ensures RightClusters(fewer, lib, pairs)
  {
  }

  /** The GitRepository and the control planes it is propagated to are among the pairs in play. */
  ghost predicate TargetsAmong(w: World, repo: ObjectKey, pairs: iset<Pair>) {
    repo in w.onboarding.repos ==>
      forall cp :: Wanted(w.onboarding.repos[repo].spec.propagateTo, w.onboarding.controlPlanes, cp) ==>
        (repo, cp) in pairs
  }

  /** The requests of the pairs in play are where they belong. */
  ghost predicate RightRequests(w: World, repo: ObjectKey, env: Env, pairs: iset<Pair>) {
    NamesSeparate(env.lib, pairs) && RightClusters(w.requests, env.lib, pairs) && TargetsAmong(w, repo, pairs)
  }

  lemma TargetsKeepRightClusters(w: World, repo: ObjectKey, env: Env, calls: PassCalls, pairs: iset<Pair>)
    requires repo in w.onboarding.repos && TargetsAmong(w, repo, pairs)
    requires NamesSeparate(env.lib, pairs) && RightClusters(w.requests, env.lib, pairs)
    ensures var (requests, targets) := Targets(w, repo, w.onboarding.repos[repo], env, calls);
      && RightClusters(requests, env.lib, pairs)
      && (targets.Some? ==>
            forall t :: t in targets.value && t.cluster.Some? ==> t.cluster == ClusterOf(env.lib, t.controlPlane))
  {
    hide ResolveAll, RightClusters, NamesSeparate, Wanted;
    var gr := w.onboarding.repos[repo];
    var names := TargetNames(gr.spec.propagateTo, w.onboarding.controlPlanes, calls.listOk);
    if names.Some? {
      forall cp | cp in names.value
        ensures (repo, cp) in pairs
      {
        NamesAreWanted(gr.spec.propagateTo, w.onboarding.controlPlanes, calls.listOk, cp);
      }
      ResolveKeepsRightClusters(w.requests, env.lib, pairs, repo, names.value, calls.access);
    }
  }

  lemma NamesAreWanted(targets: seq<PropagateTarget>, cps: seq<ControlPlane>, listOk: nat -> bool, k: ObjectKey)
    requires TargetNames(targets, cps, listOk).Some? && k in TargetNames(targets, cps, listOk).value
    ensures Wanted(targets, cps, k)
  {
    DedupKeys(Candidates(targets, cps));
    CandidatesAreWanted(targets, cps, k);
  }

  /** A whole pass, whether it propagates or deletes and wherever it stops. */
  lemma PassKeepsRightClusters(w: World, repo: ObjectKey, env: Env, now: Instant, calls: PassCalls, pairs: iset<Pair>)
    requires NamesSeparate(env.lib, pairs) && RightClusters(w.requests, env.lib, pairs) && TargetsAmong(w, repo, pairs)
    ensures RightClusters(ReconcilePass(w, repo, env, now, calls).world.requests, env.lib, pairs)
  {
    hide Targets, CleanAll, RightClusters, NamesSeparate, TargetsAmong, ResolveCredential, VisitAll;
    if repo in w.onboarding.repos {
      TargetsKeepRightClusters(w, repo, env, calls, pairs);
      var (requests, targets) := Targets(w, repo, w.onboarding.repos[repo], env, calls);
      if targets.Some? {
        CleaningOnlyRemoves(requests, w.mcps, env, repo, targets.value, calls);
        FewerRequestsStayRight(requests, CleanAll(requests, w.mcps, env, repo, targets.value, calls).requests, env.lib,
                               pairs);
      }
    }
  }

  predicate SlashFreeTargets(w: World, repo: ObjectKey)
    requires repo in w.onboarding.repos
  {
    var targets := w.onboarding.repos[repo].spec.propagateTo;
    forall i :: 0 <= i < |targets| ==> SlashFree(targets[i].namespace)
  }

  predicate WantedBy(w: World, repo: ObjectKey, cp: ObjectKey)
    requires repo in w.onboarding.repos
  {
    Wanted(w.onboarding.repos[repo].spec.propagateTo, w.onboarding.controlPlanes, cp)
  }

  // ---- Loop or nothing ----

  /** The GitRepository is there to be propagated. */
  predicate Alive(w: World, repo: ObjectKey) {
    && repo in w.onboarding.repos
    && !w.onboarding.repos[repo].deleting && FINALIZER in w.onboarding.repos[repo].finalizers
  }

  function CredentialOf(w: World, repo: ObjectKey, calls: PassCalls): Result<App, string>
    requires repo in w.onboarding.repos
  {
    ResolveCredential(w.onboarding.apps, repo, w.onboarding.repos[repo].spec.credentialRef, calls.appRead)
  }

  /** Nothing stands in the way: credential, targets and client are there. */
  predicate GetsThrough(w: World, repo: ObjectKey, env: Env, calls: PassCalls) {
    && calls.repoRead && Alive(w, repo)
    && CredentialOf(w, repo, calls).Ok? && ClientReady(w, CredentialOf(w, repo, calls).value, env, calls)
    && Targets(w, repo, w.onboarding.repos[repo], env, calls).1.Some?
  }

  function LoopOf(w: World, repo: ObjectKey, env: Env, now: Instant, calls: PassCalls): LoopPass
    requires GetsThrough(w, repo, env, calls)
  {
    var gr := w.onboarding.repos[repo];
    LoopPass(w.mcps, gr.status.propagated, gr.spec.source, Targets(w, repo, gr, env, calls).1.value, now, calls.targets)
  }

  /** Then the loop is all there is to the MCPs and the tokens, whatever becomes of the patch, and if
      that is applied, to the status list and the requeue delay. */
  lemma PassIsLoop(w: World, repo: ObjectKey, env: Env, now: Instant, calls: PassCalls)
    requires GetsThrough(w, repo, env, calls)
    ensures var p, loop := ReconcilePass(w, repo, env, now, calls), LoopOf(w, repo, env, now, calls);
      var v := VisitsOf(loop, env.cfg, repo);
      && p.world.mcps == v.mcps && p.writes == v.writes
      && p.minted == Mints(CredentialOf(w, repo, calls).value.status.installationID, v.minted)
      && (calls.patch == Applied ==>
            && StatusListOf(p.world, repo) == ListAfter(loop, env.cfg, repo)
            && p.result == PassResult(After(DelayAfter(loop, env.cfg, repo)), false))
  {
    hide Targets, VisitAll, Keep, UpsertAll, Fold, DeadlinesOf, Mints, ClientReady, ResolveCredential;
  }

  /** Otherwise the pass is stuck: it mints nothing, touches no MCP, keeps every entry of the list as
      it is, expiries included, and asks for the usual interval, however soon a token runs out. */
  lemma StuckPass(w: World, repo: ObjectKey, env: Env, now: Instant, calls: PassCalls)
    requires Alive(w, repo) && !GetsThrough(w, repo, env, calls)
    ensures var p := ReconcilePass(w, repo, env, now, calls);
      && p.minted == [] && p.writes == [] && p.world.mcps == w.mcps
      && StatusListOf(p.world, repo) == StatusListOf(w, repo)
      && (calls.repoRead && calls.patch == Applied ==> p.result == PassResult(After(REQUEUE_INTERVAL), false))
  {
    hide Targets, VisitAll, Keep, UpsertAll, Fold, DeadlinesOf, Mints, ClientReady, ResolveCredential;
  }

  // ---- Stuck without any API error ----

  ghost predicate EveryCallAnswered(calls: PassCalls) {
    && calls.repoRead && calls.appRead && calls.instanceRead && calls.client && calls.patch == Applied
    && (forall i :: calls.listOk(i))
    && (forall cp :: calls.access(cp) == ACCESS_OK)
    && (forall k :: calls.secretRead(k))
  }

  /** The App is shown as installed, with an ID. */
  predicate AppShown(w: World, repo: ObjectKey)
    requires repo in w.onboarding.repos
  {
    var ref := w.onboarding.repos[repo].spec.credentialRef;
    var key := ObjectKey(repo.namespace, ref.name);
    && ref.kind == KIND_APP_INSTALLATION && key in w.onboarding.apps
    && AppInstallations.IsTrue(w.onboarding.apps[key].status.conditions, AppInstallations.COND_APP_INSTALLED)
    && w.onboarding.apps[key].status.installationID != 0
  }

  /** Its instance lists just one Secret, and its own controller calls it ready on the same snapshot. */
  ghost predicate InstanceUsable(w: World, repo: ObjectKey, env: Env, calls: PassCalls)
    requires repo in w.onboarding.repos && AppShown(w, repo)
  {
    var app := w.onboarding.apps[ObjectKey(repo.namespace, w.onboarding.repos[repo].spec.credentialRef.name)];
    && app.instance in w.credentials.instances
    && |w.credentials.instances[app.instance]| == 1
    && GitHubInstances.Ready(SnapshotOf(w, env, calls), w.credentials.instances[app.instance],
                             env.cfg.credentialNamespace)
  }

  ghost predicate NoneBarred(w: World, repo: ObjectKey, env: Env)
    requires repo in w.onboarding.repos
  {
    forall cp :: Wanted(w.onboarding.repos[repo].spec.propagateTo, w.onboarding.controlPlanes, cp) ==>
      !Barred(w.requests, env.lib, repo, cp)
  }

  /** Even if no call fails, a pass gets through exactly if the App is shown as installed, its
      instance is usable, and every wanted control plane has a cluster and has not been denied. */
  lemma GetsThroughExactly(w: World, repo: ObjectKey, env: Env, calls: PassCalls)
    requires InUse(w, repo) && EveryCallAnswered(calls)
    ensures GetsThrough(w, repo, env, calls)
       <==> AppShown(w, repo) && InstanceUsable(w, repo, env, calls) && NoneBarred(w, repo, env)
  {
    hide Targets, Wanted, Barred, ClusterOf, Credentials.Load, Unique, SlashFree;
    ResolvedExactly(w, repo, env, calls);
    if AppShown(w, repo) {
      ReadyInstanceServes(w, env, calls, CredentialOf(w, repo, calls).value);
    }
  }

  lemma ResolvedExactly(w: World, repo: ObjectKey, env: Env, calls: PassCalls)
    requires repo in w.onboarding.repos && SlashFreeTargets(w, repo)
    requires (forall i :: calls.listOk(i)) && forall cp :: calls.access(cp) == ACCESS_OK
    ensures Targets(w, repo, w.onboarding.repos[repo], env, calls).1.Some? <==> NoneBarred(w, repo, env)
  {
    hide ResolveAll, Wanted, Barred, ClusterOf, Dedup, DedupPairs, Candidates, SlashFree;
    var gr := w.onboarding.repos[repo];
    var names := TargetNames(gr.spec.propagateTo, w.onboarding.controlPlanes, calls.listOk).value;
    ResolvedNames(gr.spec.propagateTo, w.onboarding.controlPlanes);
    ResolvesExactly(w.requests, env.lib, repo, names, calls.access);
    assert forall cp :: cp in names <==> Wanted(gr.spec.propagateTo, w.onboarding.controlPlanes, cp);
  }

  lemma ReadyInstanceServes(w: World, env: Env, calls: PassCalls, app: App)
    requires calls.instanceRead && calls.client
    ensures ClientReady(w, app, env, calls)
       <==> && app.instance in w.credentials.instances
            && |w.credentials.instances[app.instance]| == 1
            && GitHubInstances.Ready(SnapshotOf(w, env, calls), w.credentials.instances[app.instance],
                             env.cfg.credentialNamespace)
  {
    var snap := SnapshotOf(w, env, calls);
    if app.instance in w.credentials.instances && |w.credentials.instances[app.instance]| == 1 {
      var refs := w.credentials.instances[app.instance];
      assert GitHubInstances.Ready(snap, refs, env.cfg.credentialNamespace)
        <==> GitHubInstances.Loads(snap, refs[0], env.cfg.credentialNamespace);
    }
  }

  /** The reconciler never names a credential: an instance that does not list exactly one Secret stops
      it, whatever the calls. */
  lemma SeveralSecretsStick(w: World, repo: ObjectKey, env: Env, calls: PassCalls)
    requires Alive(w, repo) && CredentialOf(w, repo, calls).Ok?
    requires var instance := CredentialOf(w, repo, calls).value.instance;
      instance in w.credentials.instances && |w.credentials.instances[instance]| != 1
    ensures !GetsThrough(w, repo, env, calls)
  {
  }

  /** One control plane that is denied, or has no cluster, stops the rotation for all of them, whatever the calls. */
  lemma BarredStopsRotation(w: World, repo: ObjectKey, env: Env, now: Instant, calls: PassCalls, cp: ObjectKey)
    requires InUse(w, repo) && Wanted(w.onboarding.repos[repo].spec.propagateTo, w.onboarding.controlPlanes, cp)
    requires Barred(w.requests, env.lib, repo, cp)
    ensures !GetsThrough(w, repo, env, calls)
    ensures var p := ReconcilePass(w, repo, env, now, calls);
      && p.minted == [] && p.writes == [] && StatusListOf(p.world, repo) == StatusListOf(w, repo)
      && (calls.repoRead && calls.patch == Applied ==> p.result == PassResult(After(REQUEUE_INTERVAL), false))
      && Barred(p.world.requests, env.lib, repo, cp)
  {
    hide ResolveAll, Wanted, Barred, Dedup, DedupPairs, Candidates, SlashFree, Unique, ReconcilePass, ClientReady,
      ResolveCredential;
    BarredTargets(w, repo, w.onboarding.repos[repo], env, calls, cp);
    StuckPass(w, repo, env, now, calls);
    BarStays(w, repo, env, now, calls, cp);
  }

  /** A barred target makes the targets unresolvable, and stays barred. */
  lemma BarredTargets(w: World, repo: ObjectKey, gr: GitRepository, env: Env, calls: PassCalls, cp: ObjectKey)
    requires forall i :: 0 <= i < |gr.spec.propagateTo| ==> SlashFree(gr.spec.propagateTo[i].namespace)
    requires Wanted(gr.spec.propagateTo, w.onboarding.controlPlanes, cp) && Barred(w.requests, env.lib, repo, cp)
    ensures Targets(w, repo, gr, env, calls).1.None?
    ensures Barred(Targets(w, repo, gr, env, calls).0, env.lib, repo, cp)
  {
    hide ResolveAll, Wanted, RequestName, Dedup, DedupPairs, Candidates, SlashFree;
    var names := TargetNames(gr.spec.propagateTo, w.onboarding.controlPlanes, calls.listOk);
    ResolvedNames(gr.spec.propagateTo, w.onboarding.controlPlanes);
    if names.Some? {
      BarredFailsAll(w.requests, env.lib, repo, names.value, calls.access, cp);
      OnlyPendingAdded(w.requests, env.lib, repo, names.value, calls.access);
    }
  }

  lemma BarStays(w: World, repo: ObjectKey, env: Env, now: Instant, calls: PassCalls, cp: ObjectKey)
    requires repo in w.onboarding.repos && Barred(w.requests, env.lib, repo, cp)
    requires var (requests, targets) := Targets(w, repo, w.onboarding.repos[repo], env, calls);
      targets.None? && Barred(requests, env.lib, repo, cp)
    ensures Barred(ReconcilePass(w, repo, env, now, calls).world.requests, env.lib, repo, cp)
  {
    hide Targets, Barred, ResolveCredential, VisitAll;
  }

  // ---- The status list ----

  /** The status list after such a pass: entries for exactly the wanted control planes, each once and
      each its own result; old entries in their old order, new ones behind them in target order. */
  lemma StatusListIsMap(w: World, repo: ObjectKey, env: Env, now: Instant, calls: PassCalls)
    requires InUse(w, repo) && GetsThrough(w, repo, env, calls) && calls.patch == Applied
    ensures var before := StatusListOf(w, repo);
      var after := StatusListOf(ReconcilePass(w, repo, env, now, calls).world, repo);
      var results := VisitsOf(LoopOf(w, repo, env, now, calls), env.cfg, repo).results;
      && after == Survivors(before, results) + Newcomers(before, results)
      && Unique(after) && (forall ps :: ps in after <==> ps in results)
      && forall cp :: Find(after, cp).Some?
           <==> Wanted(w.onboarding.repos[repo].spec.propagateTo, w.onboarding.controlPlanes, cp)
  {
    hide ReconcilePass, Targets, VisitAll, Wanted, Unique, PlanesSeparate, Survivors, Newcomers, ClientReady, Find;
    var gr := w.onboarding.repos[repo];
    var loop := LoopOf(w, repo, env, now, calls);
    var results := VisitsOf(loop, env.cfg, repo).results;
    PassIsLoop(w, repo, env, now, calls);
    DesiredKeysAreResults(loop, env.cfg, repo);
    ResultsAreUnique(w, repo, gr, env, now, calls, loop.targets, w.mcps);
    SlashFreeSeparates(gr.status.propagated, results);
    UpdatedForm(gr.status.propagated, results);
    UpdatedIsMap(gr.status.propagated, results);
    var after := ListAfter(loop, env.cfg, repo);
    assert forall ps :: ps in after <==> ps in results;
    forall cp
      ensures Find(after, cp).Some? <==> Wanted(gr.spec.propagateTo, w.onboarding.controlPlanes, cp)
    {
      FindResults(after, results, cp);
      ResultsAreWanted(w, repo, env, now, calls, cp);
    }
  }

  lemma FindResults(list: Statuses, results: Statuses, cp: ObjectKey)
    requires forall ps :: ps in list <==> ps in results
    ensures Find(list, cp).Some? <==> exists i :: 0 <= i < |results| && results[i].controlPlane == cp
  {
  }

  lemma ResultsAreWanted(w: World, repo: ObjectKey, env: Env, now: Instant, calls: PassCalls, cp: ObjectKey)
    requires InUse(w, repo) && GetsThrough(w, repo, env, calls)
    ensures var results := VisitsOf(LoopOf(w, repo, env, now, calls), env.cfg, repo).results;
      (exists i :: 0 <= i < |results| && results[i].controlPlane == cp)
      <==> Wanted(w.onboarding.repos[repo].spec.propagateTo, w.onboarding.controlPlanes, cp)
  {
    hide Targets, Wanted, ClientReady, VisitTarget, AfterVisit, SlashFree;
    var loop := LoopOf(w, repo, env, now, calls);
    TargetsAreWanted(w, repo, w.onboarding.repos[repo], env, calls);
    assert forall i :: 0 <= i < |loop.targets| ==>
      VisitsOf(loop, env.cfg, repo).results[i].controlPlane == loop.targets[i].controlPlane;
  }

  // ---- What reaches the minter ----

  /** Every token of a pass is minted for an App that is shown as installed, with its ID, which is
      not zero. */
  lemma MintsNameInstalledApp(w: World, repo: ObjectKey, env: Env, now: Instant, calls: PassCalls, m: Mint)
    requires m in ReconcilePass(w, repo, env, now, calls).minted
    ensures repo in w.onboarding.repos
    ensures var key := ObjectKey(repo.namespace, w.onboarding.repos[repo].spec.credentialRef.name);
      && key in w.onboarding.apps
      && var s := w.onboarding.apps[key].status;
         && AppInstallations.IsTrue(s.conditions, AppInstallations.COND_APP_INSTALLED)
         && m.installationID == s.installationID != 0
  {
    hide Targets, VisitAll, ClientReady, CleanAll, Fold, DeadlinesOf, Keep, UpsertAll, DesiredKeys;
  }

  /** Hence the ID is the one GitHub gave in the last persisted pass of the AppInstallation
      controller, whatever passes came before. */
  lemma MintsCarryCurrentID(w: World, repo: ObjectKey, env: Env, now: Instant, calls: PassCalls, m: Mint,
                            history: seq<AppInstallations.Pass>)
    requires m in ReconcilePass(w, repo, env, now, calls).minted
    requires repo in w.onboarding.repos
    requires var key := ObjectKey(repo.namespace, w.onboarding.repos[repo].spec.credentialRef.name);
      key in w.onboarding.apps ==>
        w.onboarding.apps[key].status == AppInstallations.AfterPasses(AppInstallations.NEW_STATUS, history)
    ensures var last := AppInstallations.LastPersisted(history);
      && last.Some? && AppInstallations.Answered(last.value.spec, last.value.findings)
      && last.value.findings.check == AppInstallations.Installed(m.installationID) && m.installationID != 0
  {
    hide ReconcilePass;
    MintsNameInstalledApp(w, repo, env, now, calls, m);
    AppInstallations.InstalledMeansCurrentID(history);
  }
}
