/** A pass of the GitRepository reconciler in plain terms: what it stores in the object, what it reports
    for each target, and what it hands back. */
module PassMeaning {
  import opened Wrappers
  import opened GoTime
  import opened Names
  import opened McpStore
  import opened PlatformStore
  import opened McpAccess
  import opened AccessRequests
  import opened Propagate
  import opened StatusList
  import opened Deadlines
  import opened Controller
  import opened GitRepositoryController
  import opened TokenValidity
  import opened Convergence
  import opened ReconcilePasses
  import opened Deletion
  import GitHubInstances

  const TEN_MINUTES: Duration := 600_000_000_000

  // ---- The stored object ----

  /** An App in the namespace of the GitRepository that is shown as installed, with an ID. */
  predicate InstalledApp(w: World, repo: ObjectKey, name: string) {
    var key := ObjectKey(repo.namespace, name);
    && key in w.onboarding.apps
    && "AppInstalled" in w.onboarding.apps[key].status.conditions
    && w.onboarding.apps[key].status.conditions["AppInstalled"].status == GitHubInstances.True
    && w.onboarding.apps[key].status.installationID != 0
  }

  /** Both conditions are true exactly if the credential names an App that could be read and is installed, and
      otherwise carry the reason why not; they are of the object's generation, and all else in the object
      but the status list stays. */
  lemma StoredConditions(w: World, repo: ObjectKey, env: Env, now: Instant, calls: PassCalls)
    requires Alive(w, repo) && calls.repoRead && calls.patch != Lost
    ensures repo in ReconcilePass(w, repo, env, now, calls).world.onboarding.repos
    ensures var before := w.onboarding.repos[repo];
      var after := ReconcilePass(w, repo, env, now, calls).world.onboarding.repos[repo];
      var ref, c := before.spec.credentialRef, after.status.conditions;
      var found := calls.appRead && ObjectKey(repo.namespace, ref.name) in w.onboarding.apps;
      var resolved := ref.kind == "AppInstallation" && found && InstalledApp(w, repo, ref.name);
      && "Ready" in c && "CredentialResolved" in c
      && c["Ready"].status == c["CredentialResolved"].status
         == (if resolved then GitHubInstances.True else GitHubInstances.False)
      && c["Ready"].reason == c["CredentialResolved"].reason
         == (if ref.kind != "AppInstallation" then "UnsupportedCredentialKind"
             else if !found then "CredentialNotFound"
             else if !resolved then "AppNotInstalled" else "CredentialResolved")
      && c["Ready"].observedGeneration == c["CredentialResolved"].observedGeneration == before.generation
      && after.status.observedGeneration == before.generation
      && c - {"Ready", "CredentialResolved"} == before.status.conditions - {"Ready", "CredentialResolved"}
      && after.(status := before.status) == before
  {
    hide PropagateAll;
  }

  /** A lost patch stores nothing. */
  lemma LostPatch(w: World, repo: ObjectKey, env: Env, now: Instant, calls: PassCalls)
    requires Alive(w, repo) && calls.patch == Lost
    ensures ReconcilePass(w, repo, env, now, calls).world.onboarding == w.onboarding
  {
    hide PropagateAll;
  }

  /** The first pass stores the finalizer and does nothing else, and comes back at once. */
  lemma FirstPass(w: World, repo: ObjectKey, env: Env, now: Instant, calls: PassCalls)
    requires repo in w.onboarding.repos && calls.repoRead && !w.onboarding.repos[repo].deleting
    requires "gitops.open-control-plane.io/propagate" !in w.onboarding.repos[repo].finalizers
    ensures var p, gr := ReconcilePass(w, repo, env, now, calls), w.onboarding.repos[repo];
      var held := gr.(finalizers := gr.finalizers + {"gitops.open-control-plane.io/propagate"});
      && p.world == (if calls.update == Lost then w
                     else w.(onboarding := w.onboarding.(repos := w.onboarding.repos[repo := held])))
      && p.writes == [] && p.minted == []
      && p.result == if calls.update == Applied then PassResult(Immediately, false) else PassResult(NoRequeue, true)
  {
  }

  /** When the finalizer goes, the object goes with it, unless others hold it too. */
  lemma LastPass(w: World, repo: ObjectKey, env: Env, now: Instant, calls: PassCalls)
    requires BeingDeleted(w, repo) && !FinalizerHeld(ReconcilePass(w, repo, env, now, calls).world, repo)
    ensures var gr, after := w.onboarding.repos[repo], ReconcilePass(w, repo, env, now, calls).world.onboarding.repos;
      var rest := gr.finalizers - {"gitops.open-control-plane.io/propagate"};
      if rest == {} then repo !in after else repo in after && after[repo] == gr.(finalizers := rest)
  {
    hide Targets, CleanAll;
  }

  /** A pass changes no object of the onboarding cluster but its own, and no credentials. */
  lemma OnlyOwnObject(w: World, repo: ObjectKey, env: Env, now: Instant, calls: PassCalls, other: ObjectKey)
    requires other != repo
    ensures var after := ReconcilePass(w, repo, env, now, calls).world;
      && after.onboarding.apps == w.onboarding.apps && after.onboarding.controlPlanes == w.onboarding.controlPlanes
      && after.credentials == w.credentials
      && Lookup(after.onboarding.repos, other) == Lookup(w.onboarding.repos, other)
  {
    hide Targets, CleanAll, PropagateAll, ResolveCredential;
  }

  // ---- What is handed back ----

  /** A pass reports a failure exactly if its own object could not be read or written back, or, in deletion,
      if it could not resolve its targets or clean up. A failed deletion is retried after ten minutes at the
      latest, and one that leaves the finalizer always reports a failure. */
  lemma ResultMeaning(w: World, repo: ObjectKey, env: Env, now: Instant, calls: PassCalls)
    ensures var r := ReconcilePass(w, repo, env, now, calls).result;
      && (!calls.repoRead ==> r == PassResult(NoRequeue, true))
      && (calls.repoRead && repo !in w.onboarding.repos ==> r == PassResult(NoRequeue, false))
      && (calls.repoRead && Alive(w, repo) ==>
            && (r.failed <==> calls.patch != Applied)
            && (r.failed ==> r.requeue == NoRequeue)
            && (!r.failed ==> r.requeue.After?)
            && (!r.failed && !GetsThrough(w, repo, env, calls) ==> r.requeue.delay == TEN_MINUTES))
      && (calls.repoRead && repo in w.onboarding.repos ==>
            w.onboarding.repos[repo].deleting && !FinalizerHeld(w, repo) ==> r == PassResult(NoRequeue, false))
  {
    hide Targets, CleanAll, VisitAll, Fold, DeadlinesOf, Keep, UpsertAll, ClientReady, ResolveCredential;
  }

  lemma DeletionResult(w: World, repo: ObjectKey, env: Env, now: Instant, calls: PassCalls)
    requires BeingDeleted(w, repo) && calls.repoRead
    ensures var p, (requests, targets) := ReconcilePass(w, repo, env, now, calls), TargetsOf(w, repo, env, calls);
      var cleaned := targets.Some? && forall i :: 0 <= i < |targets.value| ==>
        TurnSucceeds(requests, w.mcps, env, repo, targets.value, calls, i);
      && p.minted == []
      && (FinalizerHeld(p.world, repo) ==> p.result.failed)
      && (p.result.failed <==> !cleaned || calls.update != Applied)
      && p.result.requeue == if cleaned then NoRequeue else After(TEN_MINUTES)
  {
    hide Targets, CleanAll, TurnSucceeds;
    var (requests, targets) := TargetsOf(w, repo, env, calls);
    if targets.Some? {
      ErrorFree(requests, w.mcps, env, repo, targets.value, calls);
    }
  }

  lemma {:induction false} NoDeadlines(results: Statuses, now: Instant, buffer: Duration)
    requires forall ps :: ps in results ==> ps.tokenExpiresAt.None?
    ensures DeadlinesOf(results, now, buffer) == []
  {
    if results == [] {
    } else {
      var front, last := results[..|results| - 1], results[|results| - 1];
      assert results == front + [last] && last in results;
      NoDeadlines(front, now, buffer);
    }
  }

  /** With no expiry to go by, and likewise with every deadline zero, a pass through its loop asks for ten
      minutes. Otherwise it asks for what the fold of the deadlines gives. */
  lemma DelayMeaning(w: World, repo: ObjectKey, env: Env, now: Instant, calls: PassCalls)
    requires GetsThrough(w, repo, env, calls) && calls.patch == Applied
    ensures var r := ReconcilePass(w, repo, env, now, calls).result;
      var results := VisitsOf(LoopOf(w, repo, env, now, calls), env.cfg, repo).results;
      var fold := Fold(DeadlinesOf(results, now, env.cfg.renewBuffer));
      && r.requeue == After(if fold > 0 then fold else TEN_MINUTES)
      && ((forall ps :: ps in results ==> ps.tokenExpiresAt.None?) ==> r.requeue == After(TEN_MINUTES))
  {
    hide ReconcilePass, VisitAll, Fold, DeadlinesOf, GetsThrough;
    PassIsLoop(w, repo, env, now, calls);
    LoopStart(w, repo, env, now, calls);
    var results := VisitsOf(LoopOf(w, repo, env, now, calls), env.cfg, repo).results;
    if forall ps :: ps in results ==> ps.tokenExpiresAt.None? {
      NoDeadlines(results, now, env.cfg.renewBuffer);
      FoldOfPositives([]);
    }
  }

  lemma LoopStart(w: World, repo: ObjectKey, env: Env, now: Instant, calls: PassCalls)
    requires GetsThrough(w, repo, env, calls)
    ensures LoopOf(w, repo, env, now, calls).now == now
  {
  }

  // ---- What is reported for a target ----

  /** Phase, reason and expiry of one target. */
  lemma ReportMeaning(mcps: map<ObjectKey, Mcp>, cfg: Config, repo: ObjectKey, source: Source, t: ResolvedTarget,
                      now: Instant, calls: TargetCalls)
    ensures var ps := VisitTarget(mcps, cfg, repo, source, t, now, calls).status;
      var st := if t.cluster.Some? then McpAt(mcps, t.cluster.value) else Mcp(map[], map[]);
      var rotates := NeedsRotation(st, cfg.fluxNamespace, repo, cfg.renewBuffer, now, calls.rotationRead);
      var sync := Sync(st, cfg.fluxNamespace, repo, source, calls.sync).result;
      && ps.controlPlane == t.controlPlane
      && (t.pending ==> ps.phase == PropagatePhase.Pending && ps.reason == "AccessRequestPending")
      && (!t.pending && t.cluster.None? ==> ps.phase == TokenFailed && ps.reason == "ClusterAccessFailed")
      && (!t.pending && t.cluster.Some? ==>
            && (!rotates ==> ps.phase == Ready && ps.reason == "Synced")
            && (rotates && sync.Err? ==> ps.phase == TokenFailed && ps.reason == "ReconcileFailed")
            && (rotates && sync.Ok? && sync.value.conflict ==>
                  ps.phase == Conflict && ps.reason == "FluxGitRepositoryConflict")
            && (rotates && sync.Ok? && !sync.value.conflict ==> ps.phase == Ready && ps.reason == "Synced"))
      && ps.tokenExpiresAt
         == (if ps.phase != Ready then None
             else if rotates then Some(ExpiryIn(calls.sync.mint.value))
             else CurrentTokenExpiry(st, cfg.fluxNamespace, repo, calls.expiryRead))
  {
    hide NeedsRotation, CurrentTokenExpiry, SecretStep, FluxStep;
  }

  /** Each entry of the list by the request stored for its control plane when the pass begins: pending, with
      no expiry, unless access has been granted, and then never pending. */
  lemma EntryByRequest(w: World, repo: ObjectKey, env: Env, now: Instant, calls: PassCalls, entry: PropagateStatus)
    requires InUse(w, repo) && GetsThrough(w, repo, env, calls) && calls.patch == Applied
    requires entry in StatusListOf(ReconcilePass(w, repo, env, now, calls).world, repo)
    ensures var stored := StoredFor(w.requests, env.lib, repo, entry.controlPlane);
      if stored.Some? && stored.value.phase == Granted then entry.phase != PropagatePhase.Pending
      else entry == PropagateStatus(entry.controlPlane, PropagatePhase.Pending, "AccessRequestPending", None)
  {
    hide ReconcilePass, GetsThrough, VisitAll, Targets, InUse, NeedsRotation, Sync, CurrentTokenExpiry;
    var loop := LoopOf(w, repo, env, now, calls);
    var results := VisitsOf(loop, env.cfg, repo).results;
    StatusListIsMap(w, repo, env, now, calls);
    var i :| 0 <= i < |results| && results[i] == entry;
    ResultOfTurn(loop, env.cfg, repo, i);
    var t := loop.targets[i];
    TargetByRequest(w, repo, env, now, calls, i);
    var mcps := VisitAll(loop.mcps, env.cfg, repo, loop.source, loop.targets[..i], loop.now, loop.calls).mcps;
    ReportMeaning(mcps, env.cfg, repo, loop.source, t, loop.now, loop.calls(t.controlPlane));
  }

  lemma {:induction false} ResultOfTurn(p: LoopPass, cfg: Config, repo: ObjectKey, i: nat)
    requires i < |p.targets|
    ensures var before := VisitAll(p.mcps, cfg, repo, p.source, p.targets[..i], p.now, p.calls).mcps;
      VisitsOf(p, cfg, repo).results[i]
      == VisitTarget(before, cfg, repo, p.source, p.targets[i], p.now, p.calls(p.targets[i].controlPlane)).status
    decreases |p.targets|
  {
    hide VisitTarget, AfterVisit, WritesOf;
    var n := |p.targets| - 1;
    var front := p.(targets := p.targets[..n]);
    if i < n {
      assert front.targets[..i] == p.targets[..i] && front.targets[i] == p.targets[i];
      ResultOfTurn(front, cfg, repo, i);
    }
  }

  lemma TargetByRequest(w: World, repo: ObjectKey, env: Env, now: Instant, calls: PassCalls, i: nat)
    requires InUse(w, repo) && GetsThrough(w, repo, env, calls) && i < |LoopOf(w, repo, env, now, calls).targets|
    ensures var t := LoopOf(w, repo, env, now, calls).targets[i];
      var stored := StoredFor(w.requests, env.lib, repo, t.controlPlane);
      if stored.Some? && stored.value.phase == Granted then !t.pending && t.cluster == Some(stored.value.requestRef)
      else t.pending && t.cluster.None?
  {
    hide ResolveAll, Dedup, Candidates, ClientReady, ResolveCredential, Unique, SlashFree;
    var gr := w.onboarding.repos[repo];
    var names := TargetNames(gr.spec.propagateTo, w.onboarding.controlPlanes, calls.listOk).value;
    ResolveReportsRequests(w.requests, env.lib, repo, names, calls.access, i);
    OnlyPendingAdded(w.requests, env.lib, repo, names, calls.access);
  }

  // ---- The tokens ----

  predicate AnsweredBy(calls: TargetCalls, token: TokenResult) {
    && calls.sync.mint.Some?
    && token.token == calls.sync.mint.value.token && token.expiresAt == ExpiryIn(calls.sync.mint.value)
  }

  /** Every token of a loop is one that GitHub answered for one of its targets, with the expiry it reported. */
  lemma {:induction false} LoopTokens(p: LoopPass, cfg: Config, repo: ObjectKey, token: TokenResult)
    requires token in VisitsOf(p, cfg, repo).minted
    ensures exists t :: t in p.targets && AnsweredBy(p.calls(t.controlPlane), token)
    decreases |p.targets|
  {
    hide AfterVisit, WritesOf, Sync, NeedsRotation, CurrentTokenExpiry;
    var n := |p.targets| - 1;
    var front, last := p.(targets := p.targets[..n]), p.targets[n];
    assert p.targets == front.targets + [last];
    if token in VisitsOf(front, cfg, repo).minted {
      LoopTokens(front, cfg, repo, token);
    } else {
      var before := VisitsOf(front, cfg, repo).mcps;
      assert token in VisitTarget(before, cfg, repo, p.source, last, p.now, p.calls(last.controlPlane)).minted;
      assert last in p.targets;
    }
  }

  /** And each of them is recorded under the installation of the App that the GitRepository refers to. */
  lemma RecordedMints(w: World, repo: ObjectKey, env: Env, now: Instant, calls: PassCalls)
    requires GetsThrough(w, repo, env, calls)
    ensures var minted := VisitsOf(LoopOf(w, repo, env, now, calls), env.cfg, repo).minted;
      var app := w.onboarding.apps[ObjectKey(repo.namespace, w.onboarding.repos[repo].spec.credentialRef.name)];
      var recorded := ReconcilePass(w, repo, env, now, calls).minted;
      && |recorded| == |minted|
      && forall i :: 0 <= i < |minted| ==>
           recorded[i].installationID == app.status.installationID && recorded[i].token == minted[i]
  {
    hide ReconcilePass, VisitAll, Targets, ClientReady;
    PassIsLoop(w, repo, env, now, calls);
  }
}
