/** Deletion, pass by pass: when the finalizer goes, and what is left behind then. */
module Deletion {
  import opened Wrappers
  import opened GoTime
  import opened Names
  import opened McpStore
  import opened PlatformStore
  import opened McpAccess
  import opened AccessRequests
  import opened Propagate
  import opened PropagateRuns
  import opened GitRepositoryController
  import opened TokenValidity
  import opened ReconcilePasses

  // ---- One MCP ----

  /** Nothing but the GitRepository's own two objects is gone, and those only if it owned them. */
  predicate OnlyOwnGone(st: Mcp, st': Mcp, ns: string, repo: ObjectKey) {
    && (st'.flux == st.flux || (OwnedFlux(st, ns, repo) && st'.flux == st.flux - {FluxKey(ns, repo)}))
    && (st'.secrets == st.secrets || (OwnedSecret(st, ns, repo) && st'.secrets == st.secrets - {SecretKey(ns, repo)}))
  }

  lemma OnlyOwnGoneTwice(st: Mcp, st1: Mcp, st2: Mcp, ns: string, repo: ObjectKey)
    requires OnlyOwnGone(st, st1, ns, repo) && OnlyOwnGone(st1, st2, ns, repo)
    ensures OnlyOwnGone(st, st2, ns, repo)
  {
  }

  /** What a cleanup does, whatever becomes of its calls: the Flux object goes exactly if it is owned,
      is read and its deletion takes effect; the Secret likewise, provided that the cleanup gets to
      it; and there is no error exactly if the deletions it makes succeed. */
  lemma RemoveEffect(st: Mcp, ns: string, repo: ObjectKey, calls: CleanupCalls)
    ensures var st', r := ApplyAll(st, Remove(st, ns, repo, calls).writes), Remove(st, ns, repo, calls).result;
      var flux, secret := OwnedFlux(st, ns, repo) && calls.fluxRead, OwnedSecret(st, ns, repo) && calls.secretRead;
      && OnlyOwnGone(st, st', ns, repo)
      && (OwnedFlux(st', ns, repo) <==> OwnedFlux(st, ns, repo) && !(flux && calls.fluxDelete != Lost))
      && (OwnedSecret(st', ns, repo) <==>
            OwnedSecret(st, ns, repo)
            && !((flux ==> calls.fluxDelete == Applied) && secret && calls.secretDelete != Lost))
      && (r.None? <==> (flux ==> calls.fluxDelete == Applied) && (secret ==> calls.secretDelete == Applied))
  {
    var ws := Remove(st, ns, repo, calls).writes;
    CleanupShape(st, ns, repo, calls);
    if |ws| == 1 {
      ApplyOne(st, ws[0]);
    } else if |ws| == 2 {
      ApplyTwo(st, ws[0], ws[1]);
    }
  }

  // ---- All targets ----

  function RequestNames(lib: Library, repo: ObjectKey, targets: seq<ResolvedTarget>): set<string> {
    set t | t in targets :: RequestName(lib, repo, t.controlPlane)
  }

  /** A request survives the loop exactly if every deletion of it is lost. */
  lemma {:induction false} CleaningRequests(requests: Requests, mcps: map<ObjectKey, Mcp>, env: Env, repo: ObjectKey,
                                            targets: seq<ResolvedTarget>, calls: PassCalls, name: string)
    ensures var after := CleanAll(requests, mcps, env, repo, targets, calls).requests;
      && (name in after <==>
            && name in requests
            && forall t :: t in targets && RequestName(env.lib, repo, t.controlPlane) == name ==>
                 calls.requestDelete(t.controlPlane) == Lost)
      && (name in after ==> after[name] == requests[name])
  {
    if targets == [] {
    } else {
      hide RemovalOf, RequestName;
      var front, t := targets[..|targets| - 1], targets[|targets| - 1];
      assert targets == front + [t] && t in targets;
      assert forall u :: u in front ==> u in targets;
      CleaningRequests(requests, mcps, env, repo, front, calls, name);
    }
  }

  /** If none is lost, exactly the requests of the targets are gone. */
  lemma RequestsCleaned(requests: Requests, mcps: map<ObjectKey, Mcp>, env: Env, repo: ObjectKey,
                        targets: seq<ResolvedTarget>, calls: PassCalls)
    requires forall t :: t in targets ==> calls.requestDelete(t.controlPlane) != Lost
    ensures CleanAll(requests, mcps, env, repo, targets, calls).requests
         == requests - RequestNames(env.lib, repo, targets)
  {
    hide CleanAll, RequestName;
    var after := CleanAll(requests, mcps, env, repo, targets, calls).requests;
    forall name
      ensures (name in after <==> name in requests && name !in RequestNames(env.lib, repo, targets))
              && (name in after ==> after[name] == requests[name])
    {
      CleaningRequests(requests, mcps, env, repo, targets, calls, name);
    }
  }

  /** The request of target `i` is deleted and the cleanup in its MCP, as the turns before left it, succeeds. */
  predicate TurnSucceeds(requests: Requests, mcps: map<ObjectKey, Mcp>, env: Env, repo: ObjectKey,
                         targets: seq<ResolvedTarget>, calls: PassCalls, i: nat)
    requires i < |targets|
  {
    var t, before := targets[i], CleanAll(requests, mcps, env, repo, targets[..i], calls);
    && calls.requestDelete(t.controlPlane) == Applied
    && RemovalOf(before.mcps, env.cfg, repo, t, calls.cleanup(t.controlPlane)).result.None?
  }

  lemma SameTurn(requests: Requests, mcps: map<ObjectKey, Mcp>, env: Env, repo: ObjectKey, targets: seq<ResolvedTarget>,
                 calls: PassCalls, i: nat)
    requires i < |targets| - 1
    ensures TurnSucceeds(requests, mcps, env, repo, targets[..|targets| - 1], calls, i)
       <==> TurnSucceeds(requests, mcps, env, repo, targets, calls, i)
  {
    hide CleanAll, RemovalOf;
    assert targets[..|targets| - 1][..i] == targets[..i];
  }

  /** No error is counted exactly if every turn succeeds. */
  lemma {:induction false} ErrorFree(requests: Requests, mcps: map<ObjectKey, Mcp>, env: Env, repo: ObjectKey,
                                     targets: seq<ResolvedTarget>, calls: PassCalls)
    ensures CleanAll(requests, mcps, env, repo, targets, calls).errors == 0
       <==> forall i :: 0 <= i < |targets| ==> TurnSucceeds(requests, mcps, env, repo, targets, calls, i)
  {
    if targets == [] {
    } else {
      hide RemovalOf, TurnSucceeds;
      var n := |targets| - 1;
      ErrorFree(requests, mcps, env, repo, targets[..n], calls);
      forall i | 0 <= i < n
        ensures TurnSucceeds(requests, mcps, env, repo, targets[..n], calls, i)
           <==> TurnSucceeds(requests, mcps, env, repo, targets, calls, i)
      {
        SameTurn(requests, mcps, env, repo, targets, calls, i);
      }
      LastTurn(requests, mcps, env, repo, targets, calls);
    }
  }

  lemma LastTurn(requests: Requests, mcps: map<ObjectKey, Mcp>, env: Env, repo: ObjectKey, targets: seq<ResolvedTarget>,
                 calls: PassCalls)
    requires targets != []
    ensures var n := |targets| - 1;
      CleanAll(requests, mcps, env, repo, targets, calls).errors == 0
      <==> CleanAll(requests, mcps, env, repo, targets[..n], calls).errors == 0
           && TurnSucceeds(requests, mcps, env, repo, targets, calls, n)
  {
    hide RemovalOf;
  }

  function AfterRemoval(mcps: map<ObjectKey, Mcp>, cfg: Config, repo: ObjectKey, t: ResolvedTarget, calls: CleanupCalls)
    : map<ObjectKey, Mcp>
  {
    if t.cluster.Some? then Commit(mcps, t.cluster.value, RemovalOf(mcps, cfg, repo, t, calls).writes) else mcps
  }

  /** An MCP after the turn of one target. */
  lemma RemovalEffect(mcps: map<ObjectKey, Mcp>, cfg: Config, repo: ObjectKey, t: ResolvedTarget, calls: CleanupCalls,
                      c: ObjectKey)
    ensures var st, st' := McpAt(mcps, c), McpAt(AfterRemoval(mcps, cfg, repo, t, calls), c);
      && OnlyOwnGone(st, st', cfg.fluxNamespace, repo)
      && (OwnedFlux(st', cfg.fluxNamespace, repo) <==>
            && OwnedFlux(st, cfg.fluxNamespace, repo)
            && !(t.cluster == Some(c) && calls.fluxRead && calls.fluxDelete != Lost))
      && (RemovalOf(mcps, cfg, repo, t, calls).result.None? ==>
            && (OwnedFlux(st', cfg.fluxNamespace, repo) <==>
                  OwnedFlux(st, cfg.fluxNamespace, repo) && !(t.cluster == Some(c) && calls.fluxRead))
            && (OwnedSecret(st', cfg.fluxNamespace, repo) <==>
                  OwnedSecret(st, cfg.fluxNamespace, repo) && !(t.cluster == Some(c) && calls.secretRead)))
  {
    hide Remove, ApplyAll, OwnedFlux, OwnedSecret;
    if t.cluster.Some? {
      var d := t.cluster.value;
      McpAtCommit(mcps, d, RemovalOf(mcps, cfg, repo, t, calls).writes, c);
      RemoveEffect(McpAt(mcps, d), cfg.fluxNamespace, repo, calls);
    }
  }

  /** What is left in an MCP. In any case only own objects go, and the Flux object goes exactly if some
      target there reads it and its deletion takes effect. Without errors, an owned object stays
      exactly if no target there could read it. */
  lemma {:induction false} CleaningMcps(requests: Requests, mcps: map<ObjectKey, Mcp>, env: Env, repo: ObjectKey,
                                        targets: seq<ResolvedTarget>, calls: PassCalls, c: ObjectKey)
    ensures var after, ns := CleanAll(requests, mcps, env, repo, targets, calls), env.cfg.fluxNamespace;
      var st, st' := McpAt(mcps, c), McpAt(after.mcps, c);
      && OnlyOwnGone(st, st', ns, repo)
      && (OwnedFlux(st', ns, repo) <==> OwnedFlux(st, ns, repo) && !FluxReached(targets, calls, c))
      && (after.errors == 0 ==>
            && (OwnedFlux(st', ns, repo) <==> OwnedFlux(st, ns, repo) && !FluxSeen(targets, calls, c))
            && (OwnedSecret(st', ns, repo) <==> OwnedSecret(st, ns, repo) && !SecretSeen(targets, calls, c)))
  {
    if targets == [] {
    } else {
      hide RemovalOf, AfterDelete, OnlyOwnGone, OwnedFlux, OwnedSecret, Commit, RequestName;
      var ns := env.cfg.fluxNamespace;
      var front, t := targets[..|targets| - 1], targets[|targets| - 1];
      assert targets == front + [t] && t in targets;
      assert forall u :: u in targets <==> u in front || u == t;
      CleaningMcps(requests, mcps, env, repo, front, calls, c);
      var before := CleanAll(requests, mcps, env, repo, front, calls);
      var after := CleanAll(requests, mcps, env, repo, targets, calls);
      assert after.mcps == AfterRemoval(before.mcps, env.cfg, repo, t, calls.cleanup(t.controlPlane));
      RemovalEffect(before.mcps, env.cfg, repo, t, calls.cleanup(t.controlPlane), c);
      OnlyOwnGoneTwice(McpAt(mcps, c), McpAt(before.mcps, c), McpAt(after.mcps, c), ns, repo);
    }
  }

  /** Some target of the MCP reads the Flux object, and its deletion would take effect. */
  predicate FluxReached(targets: seq<ResolvedTarget>, calls: PassCalls, c: ObjectKey) {
    exists t :: t in targets && t.cluster == Some(c)
      && calls.cleanup(t.controlPlane).fluxRead && calls.cleanup(t.controlPlane).fluxDelete != Lost
  }

  predicate FluxSeen(targets: seq<ResolvedTarget>, calls: PassCalls, c: ObjectKey) {
    exists t :: t in targets && t.cluster == Some(c) && calls.cleanup(t.controlPlane).fluxRead
  }

  predicate SecretSeen(targets: seq<ResolvedTarget>, calls: PassCalls, c: ObjectKey) {
    exists t :: t in targets && t.cluster == Some(c) && calls.cleanup(t.controlPlane).secretRead
  }

  // ---- The whole pass ----

  predicate FinalizerHeld(w: World, repo: ObjectKey) {
    repo in w.onboarding.repos && FINALIZER in w.onboarding.repos[repo].finalizers
  }

  predicate BeingDeleted(w: World, repo: ObjectKey) {
    FinalizerHeld(w, repo) && w.onboarding.repos[repo].deleting
  }

  function TargetsOf(w: World, repo: ObjectKey, env: Env, calls: PassCalls): (Requests, Option<seq<ResolvedTarget>>)
    requires repo in w.onboarding.repos
  {
    Targets(w, repo, w.onboarding.repos[repo], env, calls)
  }

  function CleanedBy(w: World, repo: ObjectKey, env: Env, targets: seq<ResolvedTarget>, calls: PassCalls): Cleaned
    requires repo in w.onboarding.repos
  {
    CleanAll(TargetsOf(w, repo, env, calls).0, w.mcps, env, repo, targets, calls)
  }

  lemma DeletionOutcome(w: World, repo: ObjectKey, env: Env, now: Instant, calls: PassCalls)
    requires BeingDeleted(w, repo) && calls.repoRead
    ensures var after, targets := ReconcilePass(w, repo, env, now, calls).world, TargetsOf(w, repo, env, calls).1;
      && (!FinalizerHeld(after, repo) <==>
            targets.Some? && CleanedBy(w, repo, env, targets.value, calls).errors == 0 && calls.update != Lost)
      && (FinalizerHeld(after, repo) ==> after.onboarding == w.onboarding)
      && (forall other :: other != repo ==> Lookup(after.onboarding.repos, other) == Lookup(w.onboarding.repos, other))
      && (targets.None? ==> after.requests == TargetsOf(w, repo, env, calls).0 && after.mcps == w.mcps)
      && (targets.Some? ==>
            && after.requests == CleanedBy(w, repo, env, targets.value, calls).requests
            && after.mcps == CleanedBy(w, repo, env, targets.value, calls).mcps)
  {
    hide Targets, CleanAll;
  }

  /** The finalizer goes exactly if the targets could be resolved, each request was deleted and each
      cleanup succeeded in its MCP as the turns before had left it, and the update reached the object. */
  lemma FinalizerGoesExactly(w: World, repo: ObjectKey, env: Env, now: Instant, calls: PassCalls)
    requires BeingDeleted(w, repo) && calls.repoRead
    ensures var after := ReconcilePass(w, repo, env, now, calls).world;
      && (!FinalizerHeld(after, repo) <==>
            var (requests, targets) := TargetsOf(w, repo, env, calls);
            && targets.Some? && calls.update != Lost
            && forall i :: 0 <= i < |targets.value| ==>
                 TurnSucceeds(requests, w.mcps, env, repo, targets.value, calls, i))
      && (FinalizerHeld(after, repo) ==> after.onboarding == w.onboarding)
  {
    hide Targets, CleanAll, TurnSucceeds, ReconcilePass;
    DeletionOutcome(w, repo, env, now, calls);
    var (requests, targets) := TargetsOf(w, repo, env, calls);
    if targets.Some? {
      ErrorFree(requests, w.mcps, env, repo, targets.value, calls);
    }
  }

  lemma ResolvedRequests(w: World, repo: ObjectKey, env: Env, calls: PassCalls)
    requires repo in w.onboarding.repos && TargetsOf(w, repo, env, calls).1.Some?
    ensures var (requests, targets) := TargetsOf(w, repo, env, calls);
      requests - RequestNames(env.lib, repo, targets.value) == w.requests - RequestNames(env.lib, repo, targets.value)
  {
    hide RequestName, TargetNames, ResolveAll;
    var gr := w.onboarding.repos[repo];
    var names := TargetNames(gr.spec.propagateTo, w.onboarding.controlPlanes, calls.listOk).value;
    ResolveOnlyAdds(w.requests, env.lib, repo, names, calls.access);
    var (requests, targets) := TargetsOf(w, repo, env, calls);
    forall name | name in requests && name !in w.requests
      ensures name in RequestNames(env.lib, repo, targets.value)
    {
      var cp :| cp in names && name == RequestName(env.lib, repo, cp);
      var i :| 0 <= i < |names| && names[i] == cp;
      assert targets.value[i] in targets.value;
    }
  }

  /** A pass that removes the finalizer leaves no request for any of its targets and all others as
      they were; of its own Flux objects and Secrets it leaves in an MCP exactly those which no
      target that was granted access there could read. Whether or not it succeeds, it removes nothing
      from any MCP that it does not own. */
  lemma DeletionLeaves(w: World, repo: ObjectKey, env: Env, now: Instant, calls: PassCalls)
    requires BeingDeleted(w, repo) && calls.repoRead
    ensures var after, ns := ReconcilePass(w, repo, env, now, calls).world, env.cfg.fluxNamespace;
      && (forall c :: OnlyOwnGone(McpAt(w.mcps, c), McpAt(after.mcps, c), ns, repo))
      && (!FinalizerHeld(after, repo) ==>
            var targets := TargetsOf(w, repo, env, calls).1.value;
            && after.requests == w.requests - RequestNames(env.lib, repo, targets)
            && forall c ::
                 && (OwnedFlux(McpAt(after.mcps, c), ns, repo) <==>
                       OwnedFlux(McpAt(w.mcps, c), ns, repo) && !FluxSeen(targets, calls, c))
                 && (OwnedSecret(McpAt(after.mcps, c), ns, repo) <==>
                       OwnedSecret(McpAt(w.mcps, c), ns, repo) && !SecretSeen(targets, calls, c)))
  {
    hide Targets, CleanAll, OnlyOwnGone, OwnedFlux, OwnedSecret, RequestNames, FluxSeen, SecretSeen, FluxReached,
      ReconcilePass;
    var after, ns := ReconcilePass(w, repo, env, now, calls).world, env.cfg.fluxNamespace;
    var (requests, targets) := TargetsOf(w, repo, env, calls);
    DeletionOutcome(w, repo, env, now, calls);
    if targets.Some? {
      forall c
        ensures OnlyOwnGone(McpAt(w.mcps, c), McpAt(after.mcps, c), ns, repo)
        ensures !FinalizerHeld(after, repo) ==>
          (OwnedFlux(McpAt(after.mcps, c), ns, repo) <==>
             OwnedFlux(McpAt(w.mcps, c), ns, repo) && !FluxSeen(targets.value, calls, c))
        ensures !FinalizerHeld(after, repo) ==>
          (OwnedSecret(McpAt(after.mcps, c), ns, repo) <==>
             OwnedSecret(McpAt(w.mcps, c), ns, repo) && !SecretSeen(targets.value, calls, c))
      {
        CleaningMcps(requests, w.mcps, env, repo, targets.value, calls, c);
      }
      if !FinalizerHeld(after, repo) {
        ErrorFreeDeletes(requests, w.mcps, env, repo, targets.value, calls);
        RequestsCleaned(requests, w.mcps, env, repo, targets.value, calls);
        ResolvedRequests(w, repo, env, calls);
      }
    } else {
      NothingGone(ns, repo);
    }
  }

  lemma NothingGone(ns: string, repo: ObjectKey)
    ensures forall st: Mcp :: OnlyOwnGone(st, st, ns, repo)
  {
  }

  lemma ErrorFreeDeletes(requests: Requests, mcps: map<ObjectKey, Mcp>, env: Env, repo: ObjectKey,
                         targets: seq<ResolvedTarget>, calls: PassCalls)
    requires CleanAll(requests, mcps, env, repo, targets, calls).errors == 0
    ensures forall t :: t in targets ==> calls.requestDelete(t.controlPlane) == Applied
  {
  }

  /** What deletion asks for and takes away again are requests of its own targets, so, with a
      collisionless hash and hyphen-safe names, those of another GitRepository stay as they are. */
  lemma OtherRequestsUntouched(w: World, repo: ObjectKey, env: Env, now: Instant, calls: PassCalls, other: ObjectKey,
                               cp: ObjectKey)
    requires BeingDeleted(w, repo) && calls.repoRead && Collisionless(env.lib)
    requires forall k :: Wanted(w.onboarding.repos[repo].spec.propagateTo, w.onboarding.controlPlanes, k) ==>
      SafePair(repo, k)
    requires other != repo && SafePair(other, cp)
    ensures var name, after := RequestName(env.lib, other, cp), ReconcilePass(w, repo, env, now, calls).world.requests;
      (name in after <==> name in w.requests) && (name in after ==> after[name] == w.requests[name])
  {
    hide RequestName, TargetNames, ResolveAll, CleanAll, SafePair, Wanted;
    var gr := w.onboarding.repos[repo];
    var (requests, targets) := TargetsOf(w, repo, env, calls);
    var name := RequestName(env.lib, other, cp);
    var names := TargetNames(gr.spec.propagateTo, w.onboarding.controlPlanes, calls.listOk);
    if names.Some? {
      ResolveOnlyAdds(w.requests, env.lib, repo, names.value, calls.access);
      forall k | k in names.value
        ensures RequestName(env.lib, repo, k) != name
      {
        NamesAreWanted(gr.spec.propagateTo, w.onboarding.controlPlanes, calls.listOk, k);
        DifferentNames(env.lib, repo, k, other, cp);
      }
      if targets.Some? {
        assert forall t :: t in targets.value ==> t.controlPlane in names.value;
        CleaningRequests(requests, w.mcps, env, repo, targets.value, calls, name);
      }
    }
  }

  lemma DifferentNames(lib: Library, repo: ObjectKey, cp: ObjectKey, repo': ObjectKey, cp': ObjectKey)
    requires Collisionless(lib) && SafePair(repo, cp) && SafePair(repo', cp') && repo != repo'
    ensures RequestName(lib, repo, cp) != RequestName(lib, repo', cp')
  {
    if RequestName(lib, repo, cp) == RequestName(lib, repo', cp') {
      LocalNameInjective(repo, cp, repo', cp');
    }
  }

  // ---- What survives, by the stored requests ----

  /** The stored request for the pair has been granted. */
  predicate GrantedFor(w: World, repo: ObjectKey, env: Env, cp: ObjectKey) {
    var name := RequestName(env.lib, repo, cp);
    name in w.requests && w.requests[name].phase == Granted
  }

  function GrantedCluster(w: World, repo: ObjectKey, env: Env, cp: ObjectKey): Option<ObjectKey> {
    if GrantedFor(w, repo, env, cp) then Some(w.requests[RequestName(env.lib, repo, cp)].requestRef) else None
  }

  /** The targets of a pass are the wanted control planes, each with the cluster its request grants
      when the pass begins. */
  lemma TargetClusters(w: World, repo: ObjectKey, env: Env, calls: PassCalls)
    requires repo in w.onboarding.repos && SlashFreeTargets(w, repo) && TargetsOf(w, repo, env, calls).1.Some?
    ensures var targets := TargetsOf(w, repo, env, calls).1.value;
      && (forall t :: t in targets ==>
            WantedBy(w, repo, t.controlPlane) && ClusterOf(env.lib, t.controlPlane).Some?
            && t.cluster == GrantedCluster(w, repo, env, t.controlPlane))
      && (forall cp :: WantedBy(w, repo, cp) ==> exists t :: t in targets && t.controlPlane == cp)
  {
    hide RequestName, ClusterOf, ResolveAll, Wanted, Dedup, DedupPairs, Candidates, SlashFree;
    var gr := w.onboarding.repos[repo];
    var names := TargetNames(gr.spec.propagateTo, w.onboarding.controlPlanes, calls.listOk).value;
    var targets := TargetsOf(w, repo, env, calls).1.value;
    ResolvedNames(gr.spec.propagateTo, w.onboarding.controlPlanes);
    ResolvedHaveClusters(w.requests, env.lib, repo, names, calls.access);
    OnlyPendingAdded(w.requests, env.lib, repo, names, calls.access);
    forall t | t in targets
      ensures t.controlPlane in names && t.cluster == GrantedCluster(w, repo, env, t.controlPlane)
    {
      var i :| 0 <= i < |targets| && targets[i] == t;
      ResolveReportsRequests(w.requests, env.lib, repo, names, calls.access, i);
    }
    forall cp | cp in names
      ensures exists t :: t in targets && t.controlPlane == cp
    {
      var i :| 0 <= i < |names| && names[i] == cp;
      assert targets[i] in targets;
    }
  }

  /** Exactly what a pass that removes the finalizer leaks: of the objects it owned in an MCP, those that
      it could not read through any control plane whose request grants access there. */
  lemma SurvivesExactly(w: World, repo: ObjectKey, env: Env, now: Instant, calls: PassCalls, c: ObjectKey)
    requires BeingDeleted(w, repo) && calls.repoRead && SlashFreeTargets(w, repo)
    requires !FinalizerHeld(ReconcilePass(w, repo, env, now, calls).world, repo)
    ensures var after, ns := ReconcilePass(w, repo, env, now, calls).world, env.cfg.fluxNamespace;
      && (OwnedFlux(McpAt(after.mcps, c), ns, repo) <==>
            && OwnedFlux(McpAt(w.mcps, c), ns, repo)
            && forall cp :: WantedBy(w, repo, cp) && GrantedCluster(w, repo, env, cp) == Some(c) ==>
                 !calls.cleanup(cp).fluxRead)
      && (OwnedSecret(McpAt(after.mcps, c), ns, repo) <==>
            && OwnedSecret(McpAt(w.mcps, c), ns, repo)
            && forall cp :: WantedBy(w, repo, cp) && GrantedCluster(w, repo, env, cp) == Some(c) ==>
                 !calls.cleanup(cp).secretRead)
  {
    hide Targets, OnlyOwnGone, OwnedFlux, OwnedSecret, RequestNames, ReconcilePass, WantedBy, GrantedCluster,
      SlashFreeTargets;
    DeletionOutcome(w, repo, env, now, calls);
    DeletionLeaves(w, repo, env, now, calls);
    TargetClusters(w, repo, env, calls);
  }

  /** With requests at the right clusters, an MCP is reached through its own control plane only. */
  lemma OwnMcpOnly(w: World, repo: ObjectKey, env: Env, pairs: iset<Pair>, cp: ObjectKey, cp': ObjectKey)
    requires repo in w.onboarding.repos && RightRequests(w, repo, env, pairs) && ClustersSeparate(env.lib)
    requires ClusterOf(env.lib, cp).Some? && WantedBy(w, repo, cp') && ClusterOf(env.lib, cp').Some?
    ensures GrantedCluster(w, repo, env, cp') == ClusterOf(env.lib, cp) <==> cp' == cp && GrantedFor(w, repo, env, cp)
  {
    hide RequestName, ClusterOf, Wanted;
    assert (repo, cp') in pairs;
    assert RequestName(env.lib, (repo, cp').0, (repo, cp').1) == RequestName(env.lib, repo, cp');
  }

  /** Pair by pair: what it owned in the MCP of a control plane survives exactly if the request for the
      pair had not been granted or the read failed. */
  lemma PairSurvivesExactly(w: World, repo: ObjectKey, env: Env, now: Instant, calls: PassCalls, pairs: iset<Pair>,
                            cp: ObjectKey)
    requires BeingDeleted(w, repo) && calls.repoRead && SlashFreeTargets(w, repo)
    requires !FinalizerHeld(ReconcilePass(w, repo, env, now, calls).world, repo)
    requires RightRequests(w, repo, env, pairs) && ClustersSeparate(env.lib)
    requires WantedBy(w, repo, cp) && ClusterOf(env.lib, cp).Some?
    ensures var after := ReconcilePass(w, repo, env, now, calls).world;
      var c, ns := ClusterOf(env.lib, cp).value, env.cfg.fluxNamespace;
      && (OwnedFlux(McpAt(after.mcps, c), ns, repo) <==>
            OwnedFlux(McpAt(w.mcps, c), ns, repo) && (!GrantedFor(w, repo, env, cp) || !calls.cleanup(cp).fluxRead))
      && (OwnedSecret(McpAt(after.mcps, c), ns, repo) <==>
            OwnedSecret(McpAt(w.mcps, c), ns, repo) && (!GrantedFor(w, repo, env, cp) || !calls.cleanup(cp).secretRead))
  {
    hide OwnedFlux, OwnedSecret, ReconcilePass, WantedBy, GrantedCluster, GrantedFor, SlashFreeTargets, RightRequests,
      ClustersSeparate,
      Targets, ClusterOf;
    var c := ClusterOf(env.lib, cp).value;
    DeletionOutcome(w, repo, env, now, calls);
    SurvivesExactly(w, repo, env, now, calls, c);
    TargetClusters(w, repo, env, calls);
    forall k | WantedBy(w, repo, k)
      ensures GrantedCluster(w, repo, env, k) == Some(c) <==> k == cp && GrantedFor(w, repo, env, cp)
    {
      OwnMcpOnly(w, repo, env, pairs, cp, k);
    }
  }
}
