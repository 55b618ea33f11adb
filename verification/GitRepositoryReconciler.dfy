/** The GitRepository reconciler making its calls: each method is proved to do what its function says. */
module GitRepositoryReconciler {
  import opened Wrappers
  import opened GoTime
  import opened Names
  import opened McpStore
  import opened PlatformStore
  import opened StatusList
  import opened Deadlines
  import opened Controller
  import opened GitRepositoryController
  import AccessRequests
  import Credentials
  import McpAccess
  import P = Propagate

  class OnboardingCluster {
    var repos: map<ObjectKey, GitRepository>
    const apps: map<ObjectKey, App>
    const controlPlanes: seq<McpAccess.ControlPlane>

    constructor (contents: Onboarding)
      ensures Contents() == contents
    {
      repos := contents.repos;
      apps := contents.apps;
      controlPlanes := contents.controlPlanes;
    }

    function Contents(): Onboarding
      reads this
    {
      Onboarding(repos, apps, controlPlanes)
    }

    method GetRepo(repo: ObjectKey, answered: bool) returns (r: Result<GitRepository, ReadError>)
      ensures r == Read(repos, repo, answered)
    {
      r := Read(repos, repo, answered);
    }

    /** Update and Status().Patch alike. */
    method Put(repo: ObjectKey, gr: GitRepository, o: WriteOutcome) returns (ok: bool)
      modifies this
      ensures repos == Stored(old(repos), repo, gr, o)
      ensures ok <==> o == Applied
    {
      repos := Stored(repos, repo, gr, o);
      ok := o == Applied;
    }
  }

  /** What the loop over the targets starts from. */
  datatype Before = Before(mcps: map<ObjectKey, Mcp>, log: Log, minted: seq<P.Mint>, list: Statuses)

  class Reconciler {
    const onboarding: OnboardingCluster
    const platform: Platform
    const fleet: Fleet
    const github: P.GitHub
    const env: Env

    constructor (onboarding: OnboardingCluster, platform: Platform, fleet: Fleet, github: P.GitHub, env: Env)
      ensures this.onboarding == onboarding && this.platform == platform && this.fleet == fleet
      ensures this.github == github && this.env == env
    {
      this.onboarding := onboarding;
      this.platform := platform;
      this.fleet := fleet;
      this.github := github;
      this.env := env;
    }

    function Contents(): World
      reads onboarding, platform, fleet
    {
      World(onboarding.Contents(), platform.requests, platform.credentials, fleet.mcps)
    }

    method ReconcileTarget(repo: ObjectKey, source: P.Source, t: AccessRequests.ResolvedTarget, installationID: int,
                           now: Instant, calls: TargetCalls)
      returns (ps: PropagateStatus)
      modifies fleet, github
      ensures var v := VisitTarget(old(fleet.mcps), env.cfg, repo, source, t, now, calls);
        && ps == v.status
        && fleet.mcps == AfterVisit(old(fleet.mcps), t, v)
        && fleet.log == old(fleet.log) + WritesOf(t, v)
        && github.minted == old(github.minted) + Mints(installationID, v.minted)
    {
      hide P.Sync, P.NeedsRotation, P.CurrentTokenExpiry;
      var cp, ns := t.controlPlane, env.cfg.fluxNamespace;
      if t.pending {
        return PropagateStatus(cp, PropagatePhase.Pending, "AccessRequestPending", None);
      }
      if t.cluster.None? {
        return PropagateStatus(cp, TokenFailed, "ClusterAccessFailed", None);
      }
      var c := t.cluster.value;
      if !P.NeedsRotation(fleet.At(c), ns, repo, env.cfg.renewBuffer, now, calls.rotationRead) {
        return PropagateStatus(cp, Ready, "Synced", P.CurrentTokenExpiry(fleet.At(c), ns, repo, calls.expiryRead));
      }
      var result := P.Reconcile(fleet, github, c, ns, repo, source, installationID, calls.sync);
      if result.Err? {
        return PropagateStatus(cp, TokenFailed, "ReconcileFailed", None);
      }
      if result.value.conflict {
        return PropagateStatus(cp, Conflict, "FluxGitRepositoryConflict", None);
      }
      ps := PropagateStatus(cp, Ready, "Synced", Some(result.value.tokenExpiresAt));
    }

    /** One turn of the loop: visit the target, keep its status, lower the earliest deadline. */
    method Turn(repo: ObjectKey, source: P.Source, t: AccessRequests.ResolvedTarget, installationID: int,
                now: Instant, calls: TargetCalls, status: StatusHolder, earliest0: Duration)
      returns (earliest: Duration)
      modifies fleet, github, status
      ensures var v := VisitTarget(old(fleet.mcps), env.cfg, repo, source, t, now, calls);
        && fleet.mcps == AfterVisit(old(fleet.mcps), t, v)
        && fleet.log == old(fleet.log) + WritesOf(t, v)
        && github.minted == old(github.minted) + Mints(installationID, v.minted)
        && status.propagated == Upsert(old(status.propagated), v.status)
        && earliest == Lowered(earliest0, v.status, now, env.cfg.renewBuffer)
    {
      hide VisitTarget, AfterVisit, WritesOf, Upsert, RotationDeadline, Mints;
      var ps := ReconcileTarget(repo, source, t, installationID, now, calls);
      status.SetPropagateStatus(ps);
      earliest := earliest0;
      if ps.tokenExpiresAt.Some? {
        var until := RotationDeadline(ps.tokenExpiresAt.value, now, env.cfg.renewBuffer);
        if earliest == 0 || until < earliest {
          earliest := until;
        }
      }
    }

    /** Everything after the first `i` targets is as VisitAll has it. */
    ghost predicate Progress(before: Before, repo: ObjectKey, source: P.Source,
                             targets: seq<AccessRequests.ResolvedTarget>, installationID: int, now: Instant,
                             calls: TargetCallsFor, status: StatusHolder, earliest: Duration)
      reads fleet, github, status
    {
      var v := VisitAll(before.mcps, env.cfg, repo, source, targets, now, calls);
      && fleet.mcps == v.mcps
      && fleet.log == before.log + v.writes
      && github.minted == before.minted + Mints(installationID, v.minted)
      && status.propagated == UpsertAll(before.list, v.results)
      && earliest == Fold(DeadlinesOf(v.results, now, env.cfg.renewBuffer))
    }

    /** One more target. */
    method NextTurn(ghost before: Before, repo: ObjectKey, source: P.Source,
                    ghost done: seq<AccessRequests.ResolvedTarget>, t: AccessRequests.ResolvedTarget,
                    installationID: int, now: Instant, calls: TargetCallsFor, status: StatusHolder, earliest0: Duration)
      returns (earliest: Duration)
      requires Progress(before, repo, source, done, installationID, now, calls, status, earliest0)
      modifies fleet, github, status
      ensures Progress(before, repo, source, done + [t], installationID, now, calls, status, earliest)
    {
      hide VisitAll, VisitTarget, AfterVisit, WritesOf, UpsertAll, Upsert, Fold, DeadlinesOf, Lowered, Mints;
      ghost var v := VisitAll(before.mcps, env.cfg, repo, source, done, now, calls);
      ghost var visit := VisitTarget(v.mcps, env.cfg, repo, source, t, now, calls(t.controlPlane));
      VisitAllAppend(before.mcps, repo, source, done, t, now, calls);
      MintsConcat(installationID, v.minted, visit.minted);
      UpsertAllAppend(before.list, v.results, visit.status);
      DeadlinesAppend(v.results, visit.status, now, env.cfg.renewBuffer);
      earliest := Turn(repo, source, t, installationID, now, calls(t.controlPlane), status, earliest0);
    }

    /** The loop over the targets. */
    method VisitTargets(repo: ObjectKey, source: P.Source, targets: seq<AccessRequests.ResolvedTarget>,
                        installationID: int, now: Instant, calls: TargetCallsFor, status: StatusHolder)
      returns (earliest: Duration)
      modifies fleet, github, status
      ensures Progress(Before(old(fleet.mcps), old(fleet.log), old(github.minted), old(status.propagated)),
                       repo, source, targets, installationID, now, calls, status, earliest)
    {
      earliest := 0;
      ghost var before := Before(fleet.mcps, fleet.log, github.minted, status.propagated);
      MintsConcat(installationID, [], []);
      for i := 0 to |targets|
        invariant Progress(before, repo, source, targets[..i], installationID, now, calls, status, earliest)
      {
        hide Progress;
        assert targets[..i + 1] == targets[..i] + [targets[i]];
        earliest := NextTurn(before, repo, source, targets[..i], targets[i], installationID, now, calls,
                             status, earliest);
      }
      assert targets[..|targets|] == targets;
    }

    function Lowered(earliest: Duration, ps: PropagateStatus, now: Instant, buffer: Duration): Duration {
      if ps.tokenExpiresAt.Some? then Earlier(earliest, RotationDeadline(ps.tokenExpiresAt.value, now, buffer))
      else earliest
    }

    lemma MintsConcat(installationID: int, a: seq<P.TokenResult>, b: seq<P.TokenResult>)
      ensures Mints(installationID, a + b) == Mints(installationID, a) + Mints(installationID, b)
      ensures Mints(installationID, []) == []
    {
    }

    lemma VisitAllAppend(mcps: map<ObjectKey, Mcp>, repo: ObjectKey, source: P.Source,
                         done: seq<AccessRequests.ResolvedTarget>, t: AccessRequests.ResolvedTarget, now: Instant,
                         calls: TargetCallsFor)
      ensures var before := VisitAll(mcps, env.cfg, repo, source, done, now, calls);
        var visit := VisitTarget(before.mcps, env.cfg, repo, source, t, now, calls(t.controlPlane));
        VisitAll(mcps, env.cfg, repo, source, done + [t], now, calls)
        == Visits(AfterVisit(before.mcps, t, visit), before.writes + WritesOf(t, visit),
                  before.minted + visit.minted, before.results + [visit.status])
    {
      assert (done + [t])[..|done|] == done;
    }

    lemma DeadlinesAppend(results: Statuses, ps: PropagateStatus, now: Instant, buffer: Duration)
      ensures Fold(DeadlinesOf(results + [ps], now, buffer))
           == Lowered(Fold(DeadlinesOf(results, now, buffer)), ps, now, buffer)
    {
      assert (results + [ps])[..|results|] == results;
      var ds := DeadlinesOf(results, now, buffer);
      if ps.tokenExpiresAt.Some? {
        var d := RotationDeadline(ps.tokenExpiresAt.value, now, buffer);
        assert (ds + [d])[..|ds|] == ds;
      }
    }

    method ResolveTargets(repo: ObjectKey, gr: GitRepository, calls: PassCalls)
      returns (targets: Option<seq<AccessRequests.ResolvedTarget>>)
      modifies platform`requests
      ensures (platform.requests, targets) == Targets(old(Contents()), repo, gr, env, calls)
    {
      var names := McpAccess.ResolveNames(gr.spec.propagateTo, onboarding.controlPlanes, calls.listOk);
      if names.None? {
        return None;
      }
      var r := AccessRequests.Resolve(platform, env.lib, repo, names.value, calls.access);
      targets := if r.Ok? then Some(r.value) else None;
    }

    method ReconcilePropagate(repo: ObjectKey, gr: GitRepository, app: App, status: StatusHolder, now: Instant,
                              calls: PassCalls)
      returns (earliest: Duration)
      requires status.propagated == gr.status.propagated
      modifies platform`requests, fleet, github, status
      ensures var p := PropagateAll(old(Contents()), repo, gr, app, env, now, calls);
        && platform.requests == p.requests
        && fleet.mcps == p.mcps
        && fleet.log == old(fleet.log) + p.writes
        && github.minted == old(github.minted) + p.minted
        && status.propagated == p.propagated
        && earliest == p.earliest
    {
      hide Targets, VisitAll, Fold, Keep;
      var targets := ResolveTargets(repo, gr, calls);
      if targets.None? {
        return REQUEUE_INTERVAL;
      }
      var snapshot := Credentials.Snapshot(platform.credentials, calls.instanceRead, calls.secretRead, env.parseInt);
      var creds := Credentials.Resolve(snapshot, app.instance, "", env.cfg.credentialNamespace);
      if creds.Err? || !calls.client {
        return REQUEUE_INTERVAL;
      }
      var desired: set<string> := set t | t in targets.value :: SlashKey(t.controlPlane);
      earliest := VisitTargets(repo, gr.spec.source, targets.value, app.status.installationID, now, calls.targets,
                               status);
      status.FilterPropagateStatus(desired);
    }

    /** One turn of the deletion loop; the request goes first, whether or not there is access to the MCP. */
    method CleanTarget(repo: ObjectKey, t: AccessRequests.ResolvedTarget, calls: PassCalls, errors0: nat)
      returns (errors: nat)
      modifies platform`requests, fleet
      ensures var o := calls.requestDelete(t.controlPlane);
        var removal := RemovalOf(old(fleet.mcps), env.cfg, repo, t, calls.cleanup(t.controlPlane));
        && platform.requests
           == AfterDelete(old(platform.requests), AccessRequests.RequestName(env.lib, repo, t.controlPlane), o)
        && fleet.mcps
           == (if t.cluster.Some? then Commit(old(fleet.mcps), t.cluster.value, removal.writes) else old(fleet.mcps))
        && fleet.log == old(fleet.log) + (if t.cluster.Some? then Tag(t.cluster.value, removal.writes) else [])
        && errors == errors0 + (if o == Applied then 0 else 1) + (if removal.result.None? then 0 else 1)
    {
      hide P.Remove, AfterDelete, AccessRequests.RequestName;
      errors := errors0;
      var cp := t.controlPlane;
      var ok := AccessRequests.Cleanup(platform, env.lib, repo, cp, calls.requestDelete(cp));
      if !ok {
        errors := errors + 1;
      }
      if t.cluster.Some? {
        var err := P.Cleanup(fleet, t.cluster.value, env.cfg.fluxNamespace, repo, calls.cleanup(cp));
        if err.Some? {
          errors := errors + 1;
        }
      }
    }

    /** The deletion loop, with the number of errors. */
    method CleanTargets(repo: ObjectKey, targets: seq<AccessRequests.ResolvedTarget>, calls: PassCalls)
      returns (errors: nat)
      modifies platform`requests, fleet
      ensures var c := CleanAll(old(platform.requests), old(fleet.mcps), env, repo, targets, calls);
        && platform.requests == c.requests && fleet.mcps == c.mcps && errors == c.errors
        && fleet.log == old(fleet.log) + c.writes
    {
      hide RemovalOf, AfterDelete, Commit, AccessRequests.RequestName;
      ghost var requests0, mcps0 := platform.requests, fleet.mcps;
      errors := 0;
      for i := 0 to |targets|
        invariant var c := CleanAll(requests0, mcps0, env, repo, targets[..i], calls);
          && platform.requests == c.requests && fleet.mcps == c.mcps && errors == c.errors
          && fleet.log == old(fleet.log) + c.writes
      {
        assert targets[..i + 1][..i] == targets[..i];
        errors := CleanTarget(repo, targets[i], calls, errors);
      }
      assert targets[..|targets|] == targets;
    }

    method ReconcileDelete(repo: ObjectKey, gr: GitRepository, calls: PassCalls) returns (r: PassResult)
      modifies onboarding, platform`requests, fleet
      ensures var p := DeletePass(old(Contents()), repo, gr, env, calls);
        && Pass(Contents(), p.writes, [], r) == p
        && fleet.log == old(fleet.log) + p.writes
    {
      hide Targets, CleanAll;
      if FINALIZER !in gr.finalizers {
        return PassResult(NoRequeue, false);
      }
      var targets := ResolveTargets(repo, gr, calls);
      if targets.None? {
        return PassResult(After(REQUEUE_INTERVAL), true);
      }
      var errors := CleanTargets(repo, targets.value, calls);
      if errors > 0 {
        return PassResult(After(REQUEUE_INTERVAL), true);
      }
      var ok := onboarding.Put(repo, gr.(finalizers := gr.finalizers - {FINALIZER}), calls.update);
      r := PassResult(NoRequeue, !ok);
    }

    /** One pass, from the request to the result. */
    method Reconcile(repo: ObjectKey, now: Instant, calls: PassCalls) returns (r: PassResult)
      modifies onboarding, platform`requests, fleet, github
      ensures var p := ReconcilePass(old(Contents()), repo, env, now, calls);
        && Contents() == p.world
        && fleet.log == old(fleet.log) + p.writes
        && r == p.result
        && github.minted == old(github.minted) + p.minted
    {
      hide DeletePass, PropagateAll;
      var fetched := onboarding.GetRepo(repo, calls.repoRead);
      if fetched.Err? {
        return PassResult(NoRequeue, fetched.error == ReadFailed);
      }
      var gr := fetched.value;
      if gr.deleting {
        r := ReconcileDelete(repo, gr, calls);
        return;
      }
      if FINALIZER !in gr.finalizers {
        var ok := onboarding.Put(repo, gr.(finalizers := gr.finalizers + {FINALIZER}), calls.update);
        return if ok then PassResult(Immediately, false) else PassResult(NoRequeue, true);
      }
      var app := ResolveCredential(onboarding.apps, repo, gr.spec.credentialRef, calls.appRead);
      if app.Err? {
        var ok := onboarding.Put(repo, gr.(status := StatusAfter(gr, app, gr.status.propagated)), calls.patch);
        return if ok then PassResult(After(REQUEUE_INTERVAL), false) else PassResult(NoRequeue, true);
      }
      var status := new StatusHolder(gr.status.propagated);
      var earliest := ReconcilePropagate(repo, gr, app.value, status, now, calls);
      var ok := onboarding.Put(repo, gr.(status := StatusAfter(gr, app, status.propagated)), calls.patch);
      if !ok {
        return PassResult(NoRequeue, true);
      }
      r := PassResult(After(DelayFor(earliest)), false);
    }
  }
}
