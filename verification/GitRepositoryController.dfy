/**
 internal/controller/core, GitRepository: one reconcile pass. Every pass reads the clock once.

 Functions say what a pass makes of the clusters' contents, given how each of its API calls turns
 out; the methods of the reconciler make the calls and change the contents, one by one.
 */
module GitRepositoryController {
  import opened Wrappers
  import opened GoTime
  import opened Names
  import opened McpStore
  import opened PlatformStore
  import opened McpAccess
  import opened AccessRequests
  import opened Propagate
  import opened StatusList
  import opened Deadlines
  import opened Controller
  import GitHubInstances
  import AppInstallations
  import Credentials

  const COND_CREDENTIAL_RESOLVED := "CredentialResolved"
  const COND_READY := "Ready"
  const REASON_CREDENTIAL_FOUND := "CredentialResolved"
  const REASON_CREDENTIAL_NOT_FOUND := "CredentialNotFound"
  const REASON_APP_NOT_INSTALLED := "AppNotInstalled"
  const REASON_UNSUPPORTED_KIND := "UnsupportedCredentialKind"
  const KIND_APP_INSTALLATION := "AppInstallation"
  const FINALIZER := "gitops.open-control-plane.io/propagate"

  datatype Config = Config(credentialNamespace: string, fluxNamespace: string, renewBuffer: Duration)

  // ---- One target ----

  datatype TargetCalls = TargetCalls(rotationRead: bool, expiryRead: bool, sync: SyncCalls)

  /** Writes in the target's MCP, tokens minted, and the status entry. */
  datatype Visit = Visit(writes: seq<Write>, minted: seq<TokenResult>, status: PropagateStatus)

  function MintedBy(calls: SyncCalls): seq<TokenResult> {
    if calls.mint.Some? then [TokenOf(calls.mint.value)] else []
  }

  function SyncStatus(cp: ObjectKey, r: Result<Synced, SyncError>): PropagateStatus {
    match r
    case Err(_) => PropagateStatus(cp, TokenFailed, "ReconcileFailed", None)
    case Ok(s) =>
      if s.conflict then PropagateStatus(cp, Conflict, "FluxGitRepositoryConflict", None)
      else PropagateStatus(cp, Ready, "Synced", Some(s.tokenExpiresAt))
  }

  /** A target with a cluster: a new token only if rotation is due. */
  function VisitMcp(st: Mcp, cfg: Config, repo: ObjectKey, source: Source, cp: ObjectKey, now: Instant,
                    calls: TargetCalls): Visit {
    if !NeedsRotation(st, cfg.fluxNamespace, repo, cfg.renewBuffer, now, calls.rotationRead) then
      var expiry := CurrentTokenExpiry(st, cfg.fluxNamespace, repo, calls.expiryRead);
      Visit([], [], PropagateStatus(cp, Ready, "Synced", expiry))
    else
      var s := Sync(st, cfg.fluxNamespace, repo, source, calls.sync);
      Visit(s.writes, MintedBy(calls.sync), SyncStatus(cp, s.result))
  }

  function VisitTarget(mcps: map<ObjectKey, Mcp>, cfg: Config, repo: ObjectKey, source: Source, t: ResolvedTarget,
                       now: Instant, calls: TargetCalls): Visit
  {
    if t.pending then
      Visit([], [], PropagateStatus(t.controlPlane, PropagatePhase.Pending, "AccessRequestPending", None))
    else if t.cluster.None? then
      Visit([], [], PropagateStatus(t.controlPlane, TokenFailed, "ClusterAccessFailed", None))
    else VisitMcp(McpAt(mcps, t.cluster.value), cfg, repo, source, t.controlPlane, now, calls)
  }

  function AfterVisit(mcps: map<ObjectKey, Mcp>, t: ResolvedTarget, v: Visit): map<ObjectKey, Mcp> {
    if t.cluster.Some? then Commit(mcps, t.cluster.value, v.writes) else mcps
  }

  function WritesOf(t: ResolvedTarget, v: Visit): Log {
    if t.cluster.Some? then Tag(t.cluster.value, v.writes) else []
  }

  // ---- All targets ----

  type TargetCallsFor = ObjectKey -> TargetCalls

  datatype Visits = Visits(mcps: map<ObjectKey, Mcp>, writes: Log, minted: seq<TokenResult>, results: Statuses)

  function VisitAll(mcps: map<ObjectKey, Mcp>, cfg: Config, repo: ObjectKey, source: Source,
                    targets: seq<ResolvedTarget>, now: Instant, calls: TargetCallsFor): (r: Visits)
    ensures |r.results| == |targets|
    ensures forall i :: 0 <= i < |targets| ==> r.results[i].controlPlane == targets[i].controlPlane
  {
    if targets == [] then Visits(mcps, [], [], [])
    else
      var t := targets[|targets| - 1];
      var before := VisitAll(mcps, cfg, repo, source, targets[..|targets| - 1], now, calls);
      var v := VisitTarget(before.mcps, cfg, repo, source, t, now, calls(t.controlPlane));
      Visits(AfterVisit(before.mcps, t, v), before.writes + WritesOf(t, v),
             before.minted + v.minted, before.results + [v.status])
  }

  /** The deadlines the loop goes through. */
  function DeadlinesOf(results: Statuses, now: Instant, buffer: Duration): seq<Duration> {
    if results == [] then []
    else
      var front, last := DeadlinesOf(results[..|results| - 1], now, buffer), results[|results| - 1];
      if last.tokenExpiresAt.Some? then front + [RotationDeadline(last.tokenExpiresAt.value, now, buffer)] else front
  }

  function Mints(installationID: int, tokens: seq<TokenResult>): (ms: seq<Mint>)
    ensures |ms| == |tokens|
  {
    seq(|tokens|, i requires 0 <= i < |tokens| => Mint(installationID, tokens[i]))
  }

  /** The repetition of names is over before the loop, so the keys of the targets are those of the results. */
  function DesiredKeys(targets: seq<ResolvedTarget>): set<string> {
    set t | t in targets :: SlashKey(t.controlPlane)
  }

  // ---- The clusters and the calls of one pass ----

  datatype CredentialRef = CredentialRef(name: string, kind: string)

  datatype GitRepositorySpec = GitRepositorySpec(
    source: Source,
    credentialRef: CredentialRef,
    propagateTo: seq<PropagateTarget>)

  type Conditions = AppInstallations.Conditions

  datatype GitRepositoryStatus = GitRepositoryStatus(
    conditions: Conditions,
    observedGeneration: int,
    propagated: Statuses)

  datatype GitRepository = GitRepository(
    spec: GitRepositorySpec,
    generation: int,
    deleting: bool,
    finalizers: set<string>,
    status: GitRepositoryStatus)

  /** An AppInstallation as this controller sees it: its status and the GitHubInstance it names. */
  datatype App = App(status: AppInstallations.AppStatus, instance: string)

  datatype Onboarding = Onboarding(
    repos: map<ObjectKey, GitRepository>,
    apps: map<ObjectKey, App>,
    controlPlanes: seq<ControlPlane>)

  datatype World = World(
    onboarding: Onboarding,
    requests: Requests,
    credentials: CredentialStore,
    mcps: map<ObjectKey, Mcp>)

  /** What the pass cannot see into: two library functions and the parser of App IDs. */
  datatype Env = Env(cfg: Config, lib: Library, parseInt: string -> Option<int>)

  /** How the API calls of one pass turn out. */
  datatype PassCalls = PassCalls(
    repoRead: bool,
    update: WriteOutcome,
    patch: WriteOutcome,
    appRead: bool,
    listOk: nat -> bool,
    access: CallsFor,
    instanceRead: bool,
    secretRead: ObjectKey -> bool,
    client: bool,
    targets: TargetCallsFor,
    requestDelete: ObjectKey -> WriteOutcome,
    cleanup: ObjectKey -> CleanupCalls)

  /** What a pass leaves behind, the writes it made in MCPs, the tokens it minted and what it returns. */
  datatype Pass = Pass(world: World, writes: Log, minted: seq<Mint>, result: PassResult)

  // ---- Credentials ----

  function ResolveCredential(apps: map<ObjectKey, App>, repo: ObjectKey, ref: CredentialRef, appRead: bool)
    : Result<App, string>
  {
    if ref.kind != KIND_APP_INSTALLATION then Err(REASON_UNSUPPORTED_KIND)
    else
      match Read(apps, ObjectKey(repo.namespace, ref.name), appRead)
      case Err(_) => Err(REASON_CREDENTIAL_NOT_FOUND)
      case Ok(app) =>
        if !AppInstallations.IsTrue(app.status.conditions, AppInstallations.COND_APP_INSTALLED)
           || app.status.installationID == 0
        then Err(REASON_APP_NOT_INSTALLED) else Ok(app)
  }

  function ConditionFor(r: Result<App, string>, generation: int): GitHubInstances.Condition {
    match r
    case Ok(_) => GitHubInstances.Condition(GitHubInstances.True, REASON_CREDENTIAL_FOUND, generation)
    case Err(reason) => GitHubInstances.Condition(GitHubInstances.False, reason, generation)
  }

  /** CredentialResolved and Ready say the same. */
  function StatusAfter(gr: GitRepository, r: Result<App, string>, propagated: Statuses): GitRepositoryStatus {
    var c := ConditionFor(r, gr.generation);
    GitRepositoryStatus(
      gr.status.conditions[COND_CREDENTIAL_RESOLVED := c][COND_READY := c],
      gr.generation,
      propagated)
  }

  // ---- reconcilePropagate ----

  datatype Propagation = Propagation(
    requests: Requests,
    mcps: map<ObjectKey, Mcp>,
    writes: Log,
    minted: seq<Mint>,
    propagated: Statuses,
    earliest: Duration)

  function SnapshotOf(w: World, env: Env, calls: PassCalls): Credentials.Snapshot {
    Credentials.Snapshot(w.credentials, calls.instanceRead, calls.secretRead, env.parseInt)
  }

  /** The targets of a pass, and the requests once they are ensured. */
  function Targets(w: World, repo: ObjectKey, gr: GitRepository, env: Env, calls: PassCalls)
    : (Requests, Option<seq<ResolvedTarget>>)
  {
    match TargetNames(gr.spec.propagateTo, w.onboarding.controlPlanes, calls.listOk)
    case None => (w.requests, None)
    case Some(names) =>
      var (requests, r) := ResolveAll(w.requests, env.lib, repo, names, calls.access);
      (requests, if r.Ok? then Some(r.value) else None)
  }

  /** The GitHub client can be built: note that no credential name is given. */
  predicate ClientReady(w: World, app: App, env: Env, calls: PassCalls) {
    Credentials.Resolve(SnapshotOf(w, env, calls), app.instance, "", env.cfg.credentialNamespace).Ok? && calls.client
  }

  function PropagateAll(w: World, repo: ObjectKey, gr: GitRepository, app: App, env: Env, now: Instant,
                        calls: PassCalls): Propagation {
    var (requests, targets) := Targets(w, repo, gr, env, calls);
    if targets.None? || !ClientReady(w, app, env, calls) then
      Propagation(requests, w.mcps, [], [], gr.status.propagated, REQUEUE_INTERVAL)
    else
      var v := VisitAll(w.mcps, env.cfg, repo, gr.spec.source, targets.value, now, calls.targets);
      Propagation(requests, v.mcps, v.writes, Mints(app.status.installationID, v.minted),
                  Keep(UpsertAll(gr.status.propagated, v.results), DesiredKeys(targets.value)),
                  Fold(DeadlinesOf(v.results, now, env.cfg.renewBuffer)))
  }

  // ---- reconcileDelete ----

  datatype Cleaned = Cleaned(requests: Requests, mcps: map<ObjectKey, Mcp>, writes: Log, errors: nat)

  function RemovalOf(mcps: map<ObjectKey, Mcp>, cfg: Config, repo: ObjectKey, t: ResolvedTarget, calls: CleanupCalls)
    : Outcome<Option<CleanupError>>
  {
    if t.cluster.None? then Outcome([], None) else Remove(McpAt(mcps, t.cluster.value), cfg.fluxNamespace, repo, calls)
  }

  function CleanAll(requests: Requests, mcps: map<ObjectKey, Mcp>, env: Env, repo: ObjectKey,
                    targets: seq<ResolvedTarget>, calls: PassCalls): Cleaned
  {
    if targets == [] then Cleaned(requests, mcps, [], 0)
    else
      var t := targets[|targets| - 1];
      var before := CleanAll(requests, mcps, env, repo, targets[..|targets| - 1], calls);
      var o := calls.requestDelete(t.controlPlane);
      var removal := RemovalOf(before.mcps, env.cfg, repo, t, calls.cleanup(t.controlPlane));
      Cleaned(AfterDelete(before.requests, RequestName(env.lib, repo, t.controlPlane), o),
              if t.cluster.Some? then Commit(before.mcps, t.cluster.value, removal.writes) else before.mcps,
              if t.cluster.Some? then before.writes + Tag(t.cluster.value, removal.writes) else before.writes,
              before.errors + (if o == Applied then 0 else 1) + (if removal.result.None? then 0 else 1))
  }

  // ---- Reconcile ----

  /** Writing an object back; a deleted one without finalizers is gone. */
  function Stored(repos: map<ObjectKey, GitRepository>, repo: ObjectKey, gr: GitRepository, o: WriteOutcome)
    : map<ObjectKey, GitRepository>
  {
    if o == Lost then repos
    else if gr.deleting && gr.finalizers == {} then repos - {repo}
    else repos[repo := gr]
  }

  function WithRepo(w: World, repo: ObjectKey, gr: GitRepository, o: WriteOutcome): World {
    w.(onboarding := w.onboarding.(repos := Stored(w.onboarding.repos, repo, gr, o)))
  }

  function DeletePass(w: World, repo: ObjectKey, gr: GitRepository, env: Env, calls: PassCalls): Pass {
    if FINALIZER !in gr.finalizers then Pass(w, [], [], PassResult(NoRequeue, false))
    else
      var (requests, targets) := Targets(w, repo, gr, env, calls);
      if targets.None? then Pass(w.(requests := requests), [], [], PassResult(After(REQUEUE_INTERVAL), true))
      else
        var c := CleanAll(requests, w.mcps, env, repo, targets.value, calls);
        var w' := w.(requests := c.requests, mcps := c.mcps);
        if c.errors > 0 then Pass(w', c.writes, [], PassResult(After(REQUEUE_INTERVAL), true))
        else Pass(WithRepo(w', repo, gr.(finalizers := gr.finalizers - {FINALIZER}), calls.update), c.writes, [],
                  PassResult(NoRequeue, calls.update != Applied))
  }

  function ReconcilePass(w: World, repo: ObjectKey, env: Env, now: Instant, calls: PassCalls): Pass {
    match Read(w.onboarding.repos, repo, calls.repoRead)
    case Err(NotFound) => Pass(w, [], [], PassResult(NoRequeue, false))
    case Err(ReadFailed) => Pass(w, [], [], PassResult(NoRequeue, true))
    case Ok(gr) =>
      if gr.deleting then DeletePass(w, repo, gr, env, calls)
      else if FINALIZER !in gr.finalizers then
        Pass(WithRepo(w, repo, gr.(finalizers := gr.finalizers + {FINALIZER}), calls.update), [], [],
             if calls.update == Applied then PassResult(Immediately, false) else PassResult(NoRequeue, true))
      else UpdatePass(w, repo, gr, env, now, calls)
  }

  function UpdatePass(w: World, repo: ObjectKey, gr: GitRepository, env: Env, now: Instant, calls: PassCalls): Pass {
    var r := ResolveCredential(w.onboarding.apps, repo, gr.spec.credentialRef, calls.appRead);
    match r
    case Err(_) =>
      Pass(WithRepo(w, repo, gr.(status := StatusAfter(gr, r, gr.status.propagated)), calls.patch), [], [],
           if calls.patch == Applied then PassResult(After(REQUEUE_INTERVAL), false) else PassResult(NoRequeue, true))
    case Ok(app) =>
      var p := PropagateAll(w, repo, gr, app, env, now, calls);
      var w' := w.(requests := p.requests, mcps := p.mcps);
      Pass(WithRepo(w', repo, gr.(status := StatusAfter(gr, r, p.propagated)), calls.patch),
           p.writes,
           p.minted,
           if calls.patch == Applied then PassResult(After(DelayFor(p.earliest)), false)
           else PassResult(NoRequeue, true))
  }

  function DelayFor(earliest: Duration): Duration {
    if earliest > 0 then earliest else REQUEUE_INTERVAL
  }
}
