/** Deletion over several passes: exactly what leaks, by failed passes that have already given up
    access, and what keeps a GitRepository from ever being deleted. */
module DeletionRuns {
  import opened Wrappers
  import opened GoTime
  import opened Names
  import opened McpStore
  import opened PlatformStore
  import opened McpAccess
  import opened AccessRequests
  import opened Propagate
  import opened GitRepositoryController
  import opened TokenValidity
  import opened Convergence
  import opened ReconcilePasses
  import opened Deletion

  // ---- One MCP through the loop ----

  lemma {:induction false} CleanAllElsewhere(requests: Requests, mcps: map<ObjectKey, Mcp>, env: Env, repo: ObjectKey,
                                             targets: seq<ResolvedTarget>, calls: PassCalls, c: ObjectKey)
    requires forall t :: t in targets ==> t.cluster != Some(c)
    ensures McpAt(CleanAll(requests, mcps, env, repo, targets, calls).mcps, c) == McpAt(mcps, c)
  {
    if targets == [] {
    } else {
      hide RemovalOf, AfterDelete, RequestName;
      var front, t := targets[..|targets| - 1], targets[|targets| - 1];
      assert targets == front + [t];
      CleanAllElsewhere(requests, mcps, env, repo, front, calls, c);
    }
  }

  /** What one cleanup makes of an MCP. */
  function CleanedMcp(st: Mcp, env: Env, repo: ObjectKey, calls: CleanupCalls): Mcp {
    ApplyAll(st, Remove(st, env.cfg.fluxNamespace, repo, calls).writes)
  }

  /** An MCP that is the cluster of a single target is left as that target's cleanup leaves it. */
  lemma {:induction false} CleanAllParts(requests: Requests, mcps: map<ObjectKey, Mcp>, env: Env, repo: ObjectKey,
                                         targets: seq<ResolvedTarget>, calls: PassCalls, i: nat, c: ObjectKey)
    requires i < |targets| && targets[i].cluster == Some(c)
    requires forall j :: 0 <= j < |targets| && j != i ==> targets[j].cluster != Some(c)
    ensures McpAt(CleanAll(requests, mcps, env, repo, targets, calls).mcps, c)
         == CleanedMcp(McpAt(mcps, c), env, repo, calls.cleanup(targets[i].controlPlane))
  {
    hide Remove, AfterDelete, RequestName, ApplyAll;
    var n := |targets| - 1;
    var front, t := targets[..n], targets[n];
    var before := CleanAll(requests, mcps, env, repo, front, calls);
    var ws := RemovalOf(before.mcps, env.cfg, repo, t, calls.cleanup(t.controlPlane)).writes;
    if i == n {
      CleanAllElsewhere(requests, mcps, env, repo, front, calls, c);
      McpAtCommit(before.mcps, c, ws, c);
    } else {
      CleanAllParts(requests, mcps, env, repo, front, calls, i, c);
      if t.cluster.Some? {
        McpAtCommit(before.mcps, t.cluster.value, ws, c);
      }
    }
  }

  // ---- One pass, seen from one pair ----

  lemma OwnRequestOnly(w: World, repo: ObjectKey, env: Env, pairs: iset<Pair>, cp: ObjectKey, cp': ObjectKey)
    requires repo in w.onboarding.repos && RightRequests(w, repo, env, pairs) && ClustersSeparate(env.lib)
    requires WantedBy(w, repo, cp) && ClusterOf(env.lib, cp).Some? && WantedBy(w, repo, cp')
    requires ClusterOf(env.lib, cp').Some?
    requires RequestName(env.lib, repo, cp') == RequestName(env.lib, repo, cp)
    ensures cp' == cp
  {
    hide RequestName, ClusterOf, Wanted, RightClusters;
    var p, q := (repo, cp), (repo, cp');
    assert p in pairs && q in pairs;
    assert RequestName(env.lib, p.0, p.1) == RequestName(env.lib, q.0, q.1);
  }

  lemma GrantsKept(w: World, repo: ObjectKey, env: Env, calls: PassCalls, cp: ObjectKey)
    requires repo in w.onboarding.repos
    ensures GrantedFor(w.(requests := TargetsOf(w, repo, env, calls).0), repo, env, cp)
       <==> GrantedFor(w, repo, env, cp)
  {
    hide RequestName, ResolveAll, Candidates, Dedup;
    var gr := w.onboarding.repos[repo];
    var names := TargetNames(gr.spec.propagateTo, w.onboarding.controlPlanes, calls.listOk);
    if names.Some? {
      OnlyPendingAdded(w.requests, env.lib, repo, names.value, calls.access);
    }
  }

  lemma PassKeepsRightRequests(w: World, repo: ObjectKey, env: Env, now: Instant, calls: PassCalls, pairs: iset<Pair>)
    requires RightRequests(w, repo, env, pairs)
    requires ReconcilePass(w, repo, env, now, calls).world.onboarding == w.onboarding
    ensures RightRequests(ReconcilePass(w, repo, env, now, calls).world, repo, env, pairs)
  {
    hide ReconcilePass, RightClusters, NamesSeparate;
    PassKeepsRightClusters(w, repo, env, now, calls, pairs);
  }

  /** A deletion pass cleans up in the MCP of the control plane: it finds the request granted, and can
      resolve all targets. */
  predicate Reaches(w: World, repo: ObjectKey, env: Env, calls: PassCalls, cp: ObjectKey)
    requires repo in w.onboarding.repos
  {
    calls.repoRead && TargetsOf(w, repo, env, calls).1.Some? && GrantedFor(w, repo, env, cp)
  }

  /** The GitRepository is being deleted and wants the control plane, with requests and clusters in order. */
  ghost predicate Deleting(w: World, repo: ObjectKey, env: Env, pairs: iset<Pair>, cp: ObjectKey) {
    && BeingDeleted(w, repo) && SlashFreeTargets(w, repo) && WantedBy(w, repo, cp)
    && RightRequests(w, repo, env, pairs) && ClustersSeparate(env.lib) && ClusterOf(env.lib, cp).Some?
  }

  /** The target of the control plane is the only one whose cluster is the control plane's. */
  lemma OnlyTarget(w: World, repo: ObjectKey, env: Env, calls: PassCalls, pairs: iset<Pair>, cp: ObjectKey)
    returns (i: nat)
    requires Deleting(w, repo, env, pairs, cp) && TargetsOf(w, repo, env, calls).1.Some?
    ensures var targets, c := TargetsOf(w, repo, env, calls).1.value, ClusterOf(env.lib, cp).value;
      && i < |targets| && targets[i].controlPlane == cp
      && (targets[i].cluster == Some(c) <==> GrantedFor(w, repo, env, cp))
      && forall j :: 0 <= j < |targets| && j != i ==> targets[j].cluster != Some(c)
  {
    hide Targets, ClusterOf, WantedBy, RightRequests, ClustersSeparate, GrantedFor, GrantedCluster, SlashFree, Wanted;
    var targets, c := TargetsOf(w, repo, env, calls).1.value, ClusterOf(env.lib, cp).value;
    TargetClusters(w, repo, env, calls);
    TargetsAreWanted(w, repo, w.onboarding.repos[repo], env, calls);
    var t :| t in targets && t.controlPlane == cp;
    i :| 0 <= i < |targets| && targets[i] == t;
    forall j | 0 <= j < |targets|
      ensures targets[j].cluster == Some(c) <==> targets[j].controlPlane == cp && GrantedFor(w, repo, env, cp)
    {
      assert targets[j] in targets;
      OwnMcpOnly(w, repo, env, pairs, cp, targets[j].controlPlane);
    }
  }

  /** All that a deletion pass does to the MCP of a control plane, whether or not the pass succeeds. */
  lemma PassOnMcp(w: World, repo: ObjectKey, env: Env, now: Instant, calls: PassCalls, pairs: iset<Pair>, cp: ObjectKey)
    requires Deleting(w, repo, env, pairs, cp)
    ensures var c := ClusterOf(env.lib, cp).value;
      McpAt(ReconcilePass(w, repo, env, now, calls).world.mcps, c)
      == if Reaches(w, repo, env, calls, cp) then CleanedMcp(McpAt(w.mcps, c), env, repo, calls.cleanup(cp))
         else McpAt(w.mcps, c)
  {
    hide Targets, CleanAll, CleanedMcp, ClusterOf, GrantedFor, WantedBy, RightRequests, ClustersSeparate,
      SlashFreeTargets;
    var c := ClusterOf(env.lib, cp).value;
    var (requests, targets) := TargetsOf(w, repo, env, calls);
    if calls.repoRead && targets.Some? {
      DeletionOutcome(w, repo, env, now, calls);
      var i := OnlyTarget(w, repo, env, calls, pairs, cp);
      if GrantedFor(w, repo, env, cp) {
        CleanAllParts(requests, w.mcps, env, repo, targets.value, calls, i, c);
      } else {
        CleanAllElsewhere(requests, w.mcps, env, repo, targets.value, calls, c);
      }
    }
  }

  /** And to the request: it stays granted unless the pass deletes it. */
  lemma PassOnRequest(w: World, repo: ObjectKey, env: Env, now: Instant, calls: PassCalls, pairs: iset<Pair>,
                      cp: ObjectKey)
    requires Deleting(w, repo, env, pairs, cp)
    ensures GrantedFor(ReconcilePass(w, repo, env, now, calls).world, repo, env, cp)
       <==> GrantedFor(w, repo, env, cp) && (Reaches(w, repo, env, calls, cp) ==> calls.requestDelete(cp) == Lost)
  {
    hide Targets, CleanAll, RequestName, ClusterOf, WantedBy, RightRequests, ClustersSeparate, SlashFreeTargets;
    var (requests, targets) := TargetsOf(w, repo, env, calls);
    if calls.repoRead {
      DeletionOutcome(w, repo, env, now, calls);
      GrantsKept(w, repo, env, calls, cp);
      if targets.Some? {
        TargetClusters(w, repo, env, calls);
        CleaningRequests(requests, w.mcps, env, repo, targets.value, calls, RequestName(env.lib, repo, cp));
        forall t | t in targets.value && RequestName(env.lib, repo, t.controlPlane) == RequestName(env.lib, repo, cp)
          ensures t.controlPlane == cp
        {
          OwnRequestOnly(w, repo, env, pairs, cp, t.controlPlane);
        }
      }
    }
  }

  /** A cleanup that gets that far takes away the Flux object. */
  predicate FluxTaken(calls: CleanupCalls) {
    calls.fluxRead && calls.fluxDelete != Lost
  }

  /** It takes away the Secret, unless deleting the Flux object before it fails. */
  predicate SecretTaken(st: Mcp, ns: string, repo: ObjectKey, calls: CleanupCalls) {
    && calls.secretRead && calls.secretDelete != Lost
    && (OwnedFlux(st, ns, repo) && calls.fluxRead ==> calls.fluxDelete == Applied)
  }

  /** What a pass leaves of the two objects it owned in the MCP of a control plane. */
  lemma PassLeavesExactly(w: World, repo: ObjectKey, env: Env, now: Instant, calls: PassCalls, pairs: iset<Pair>,
                          cp: ObjectKey)
    requires Deleting(w, repo, env, pairs, cp)
    ensures var c, ns := ClusterOf(env.lib, cp).value, env.cfg.fluxNamespace;
      var st, st' := McpAt(w.mcps, c), McpAt(ReconcilePass(w, repo, env, now, calls).world.mcps, c);
      var reaches := Reaches(w, repo, env, calls, cp);
      && (OwnedFlux(st', ns, repo) <==> OwnedFlux(st, ns, repo) && !(reaches && FluxTaken(calls.cleanup(cp))))
      && (OwnedSecret(st', ns, repo) <==>
            OwnedSecret(st, ns, repo) && !(reaches && SecretTaken(st, ns, repo, calls.cleanup(cp))))
  {
    hide ReconcilePass, RightRequests, ClustersSeparate, WantedBy, SlashFreeTargets, Reaches, OwnedFlux, OwnedSecret,
      Remove, ApplyAll, ClusterOf, OnlyOwnGone;
    PassOnMcp(w, repo, env, now, calls, pairs, cp);
    RemoveEffect(McpAt(w.mcps, ClusterOf(env.lib, cp).value), env.cfg.fluxNamespace, repo, calls.cleanup(cp));
  }

  // ---- Any number of passes ----

  predicate SameOwn(st: Mcp, st': Mcp, ns: string, repo: ObjectKey) {
    && Lookup(st'.flux, FluxKey(ns, repo)) == Lookup(st.flux, FluxKey(ns, repo))
    && Lookup(st'.secrets, SecretKey(ns, repo)) == Lookup(st.secrets, SecretKey(ns, repo))
  }

  /** `worlds[i]` is what pass i of a deletion finds. In between, others leave the two objects alone; they
      may change everything else, and grant or deny requests. */
  ghost predicate DeletionRun(worlds: seq<World>, inputs: seq<PassInput>, repo: ObjectKey, env: Env,
                              pairs: iset<Pair>, cp: ObjectKey)
    requires |worlds| == |inputs|
  {
    && (forall i :: 0 <= i < |worlds| ==> Deleting(worlds[i], repo, env, pairs, cp))
    && (forall i, j :: 0 <= i < |worlds| && j == i + 1 && j < |worlds| ==>
          SameOwn(McpAt(PassAt(worlds[i], repo, env, inputs[i]).world.mcps, ClusterOf(env.lib, cp).value),
                  McpAt(worlds[j].mcps, ClusterOf(env.lib, cp).value), env.cfg.fluxNamespace, repo))
  }

  /** Pass i gets at the Flux object and takes it away. */
  predicate TakesFlux(w: World, repo: ObjectKey, env: Env, input: PassInput, cp: ObjectKey)
    requires repo in w.onboarding.repos
  {
    Reaches(w, repo, env, input.calls, cp) && FluxTaken(input.calls.cleanup(cp))
  }

  predicate TakesSecret(w: World, repo: ObjectKey, env: Env, input: PassInput, cp: ObjectKey)
    requires repo in w.onboarding.repos && ClusterOf(env.lib, cp).Some?
  {
    && Reaches(w, repo, env, input.calls, cp)
    && SecretTaken(McpAt(w.mcps, ClusterOf(env.lib, cp).value), env.cfg.fluxNamespace, repo, input.calls.cleanup(cp))
  }

  lemma SameOwnOwned(st: Mcp, st': Mcp, ns: string, repo: ObjectKey)
    requires SameOwn(st, st', ns, repo)
    ensures OwnedFlux(st', ns, repo) <==> OwnedFlux(st, ns, repo)
    ensures OwnedSecret(st', ns, repo) <==> OwnedSecret(st, ns, repo)
  {
  }

  lemma RunStep(worlds: seq<World>, inputs: seq<PassInput>, repo: ObjectKey, env: Env, pairs: iset<Pair>, cp: ObjectKey,
                i: nat)
    requires |worlds| == |inputs| && i < |worlds| && DeletionRun(worlds, inputs, repo, env, pairs, cp)
    ensures Deleting(worlds[i], repo, env, pairs, cp)
    ensures repo in worlds[i].onboarding.repos && ClusterOf(env.lib, cp).Some?
    ensures i > 0 ==>
      SameOwn(McpAt(PassAt(worlds[i - 1], repo, env, inputs[i - 1]).world.mcps, ClusterOf(env.lib, cp).value),
              McpAt(worlds[i].mcps, ClusterOf(env.lib, cp).value), env.cfg.fluxNamespace, repo)
  {
    hide PassAt, ClusterOf, SameOwn, RightRequests, ClustersSeparate, SlashFreeTargets, WantedBy;
  }

  /** Exactly what leaks over any number of deletion passes: an object that was owned is still there after
      pass i if and only if none of the passes so far took it away, which a pass does only while the
      request is granted and the targets resolve. */
  lemma {:induction false} RunLeavesExactly(worlds: seq<World>, inputs: seq<PassInput>, repo: ObjectKey, env: Env,
                                            pairs: iset<Pair>, cp: ObjectKey, i: nat)
    requires |worlds| == |inputs| && i < |worlds| && DeletionRun(worlds, inputs, repo, env, pairs, cp)
    requires ClusterOf(env.lib, cp).Some? && forall k :: 0 <= k < |worlds| ==> repo in worlds[k].onboarding.repos
    ensures var c, ns := ClusterOf(env.lib, cp).value, env.cfg.fluxNamespace;
      var first, last := McpAt(worlds[0].mcps, c), McpAt(PassAt(worlds[i], repo, env, inputs[i]).world.mcps, c);
      && (OwnedFlux(last, ns, repo) <==>
            && OwnedFlux(first, ns, repo)
            && forall k :: 0 <= k <= i ==> !TakesFlux(worlds[k], repo, env, inputs[k], cp))
      && (OwnedSecret(last, ns, repo) <==>
            && OwnedSecret(first, ns, repo)
            && forall k :: 0 <= k <= i ==> !TakesSecret(worlds[k], repo, env, inputs[k], cp))
    decreases i
  {
    hide DeletionRun, Deleting, ReconcilePass, Reaches, OwnedFlux, OwnedSecret, FluxTaken, SecretTaken, SameOwn,
      ClusterOf;
    var c, ns := ClusterOf(env.lib, cp).value, env.cfg.fluxNamespace;
    RunStep(worlds, inputs, repo, env, pairs, cp, i);
    PassLeavesExactly(worlds[i], repo, env, inputs[i].now, inputs[i].calls, pairs, cp);
    if i == 0 {
    } else {
      RunLeavesExactly(worlds, inputs, repo, env, pairs, cp, i - 1);
      var before := PassAt(worlds[i - 1], repo, env, inputs[i - 1]).world;
      SameOwnOwned(McpAt(before.mcps, c), McpAt(worlds[i].mcps, c), ns, repo);
    }
  }

  /** The passes follow one another with nobody else in between. */
  ghost predicate OwnPassesOnly(worlds: seq<World>, inputs: seq<PassInput>, repo: ObjectKey, env: Env)
    requires |worlds| == |inputs|
  {
    forall i, j :: 0 <= i < |worlds| && j == i + 1 && j < |worlds| ==>
      worlds[j] == PassAt(worlds[i], repo, env, inputs[i]).world
  }

  /** Then access is lost for good with the first pass that deletes the request. */
  lemma {:induction false} GrantLasts(worlds: seq<World>, inputs: seq<PassInput>, repo: ObjectKey, env: Env,
                                      pairs: iset<Pair>, cp: ObjectKey, i: nat)
    requires |worlds| == |inputs| && i < |worlds| && DeletionRun(worlds, inputs, repo, env, pairs, cp)
    requires OwnPassesOnly(worlds, inputs, repo, env)
    requires forall k :: 0 <= k < |worlds| ==> repo in worlds[k].onboarding.repos
    ensures GrantedFor(worlds[i], repo, env, cp)
       <==> && GrantedFor(worlds[0], repo, env, cp)
            && forall k :: 0 <= k < i && Reaches(worlds[k], repo, env, inputs[k].calls, cp) ==>
                 inputs[k].calls.requestDelete(cp) == Lost
    decreases i
  {
    hide DeletionRun, Deleting, ReconcilePass, Reaches, GrantedFor;
    if i == 0 {
    } else {
      GrantLasts(worlds, inputs, repo, env, pairs, cp, i - 1);
      RunStep(worlds, inputs, repo, env, pairs, cp, i - 1);
      PassOnRequest(worlds[i - 1], repo, env, inputs[i - 1].now, inputs[i - 1].calls, pairs, cp);
      assert worlds[i] == PassAt(worlds[i - 1], repo, env, inputs[i - 1]).world;
    }
  }

  /** Two passes, by what the first one finds: let it keep the finalizer, and the second remove it. What was
      owned in the MCP of a control plane and can be read by the second pass is still there if and only
      if the request had not been granted, or the first pass took away the request but not the object. */
  lemma TwoPassesLeakExactly(w: World, repo: ObjectKey, env: Env, now: Instant, calls: PassCalls, now': Instant,
                             calls': PassCalls, pairs: iset<Pair>, cp: ObjectKey)
    requires Deleting(w, repo, env, pairs, cp) && calls.repoRead && calls'.repoRead
    requires repo in w.onboarding.repos && ClusterOf(env.lib, cp).Some?
    requires var first := ReconcilePass(w, repo, env, now, calls).world;
      FinalizerHeld(first, repo) && !FinalizerHeld(ReconcilePass(first, repo, env, now', calls').world, repo)
    ensures var c, ns := ClusterOf(env.lib, cp).value, env.cfg.fluxNamespace;
      var second := ReconcilePass(ReconcilePass(w, repo, env, now, calls).world, repo, env, now', calls').world;
      var st, st', resolved := McpAt(w.mcps, c), McpAt(second.mcps, c), TargetsOf(w, repo, env, calls).1.Some?;
      && (calls'.cleanup(cp).fluxRead ==>
            (OwnedFlux(st', ns, repo) <==>
               && OwnedFlux(st, ns, repo)
               && (GrantedFor(w, repo, env, cp) ==>
                     resolved && calls.requestDelete(cp) != Lost && !FluxTaken(calls.cleanup(cp)))))
      && (calls'.cleanup(cp).secretRead ==>
            (OwnedSecret(st', ns, repo) <==>
               && OwnedSecret(st, ns, repo)
               && (GrantedFor(w, repo, env, cp) ==>
                     resolved && calls.requestDelete(cp) != Lost && !SecretTaken(st, ns, repo, calls.cleanup(cp)))))
  {
    hide OwnedFlux, OwnedSecret, ReconcilePass, GrantedFor, RightRequests, ClustersSeparate, ClusterOf, FluxTaken,
      SecretTaken, SlashFreeTargets;
    var first := ReconcilePass(w, repo, env, now, calls).world;
    DeletionOutcome(w, repo, env, now, calls);
    PassOnRequest(w, repo, env, now, calls, pairs, cp);
    PassLeavesExactly(w, repo, env, now, calls, pairs, cp);
    PassKeepsRightRequests(w, repo, env, now, calls, pairs);
    SameSlashFree(w, first, repo);
    PairSurvivesExactly(first, repo, env, now', calls', pairs, cp);
  }

  lemma SameSlashFree(w: World, w': World, repo: ObjectKey)
    requires repo in w.onboarding.repos && w'.onboarding == w.onboarding
    ensures SlashFreeTargets(w', repo) <==> SlashFreeTargets(w, repo)
  {
  }

  // ---- When leaks happen ----

  lemma AbsentRequestPending(requests: Requests, lib: Library, repo: ObjectKey, cp: ObjectKey)
    requires var name := RequestName(lib, repo, cp);
      name in requests ==> requests[name].phase == AccessPhase.Pending
    requires ClusterOf(lib, cp).Some?
    ensures OneResult(requests, lib, repo, cp, ACCESS_OK) == Ok(ResolvedTarget(cp, None, true))
    ensures forall name :: name in AfterOne(requests, lib, repo, cp, ACCESS_OK) ==>
      if name in requests then AfterOne(requests, lib, repo, cp, ACCESS_OK)[name] == requests[name]
      else AfterOne(requests, lib, repo, cp, ACCESS_OK)[name].phase == AccessPhase.Pending
  {
  }

  /** Requests created anew are pending, and give no access. */
  lemma {:induction false} AbsentRequestsResolvePending(requests: Requests, lib: Library, repo: ObjectKey,
                                                        refs: seq<ObjectKey>, calls: CallsFor)
    requires forall cp :: cp in refs ==>
      RequestName(lib, repo, cp) !in requests && ClusterOf(lib, cp).Some? && calls(cp) == ACCESS_OK
    ensures var (after, r) := ResolveAll(requests, lib, repo, refs, calls);
      && (forall name :: name in after && name !in requests ==> after[name].phase == AccessPhase.Pending)
      && r.Ok? && forall t :: t in r.value ==> t.cluster.None?
  {
    if refs == [] {
    } else {
      hide RequestName, ClusterOf, OneResult, AfterOne;
      var front, cp := refs[..|refs| - 1], refs[|refs| - 1];
      assert refs == front + [cp] && cp in refs;
      assert forall k :: k in front ==> k in refs;
      AbsentRequestsResolvePending(requests, lib, repo, front, calls);
      AbsentRequestPending(ResolveAll(requests, lib, repo, front, calls).0, lib, repo, cp);
    }
  }

  lemma {:induction false} NoAccessNoCleanup(requests: Requests, mcps: map<ObjectKey, Mcp>, env: Env, repo: ObjectKey,
                                             targets: seq<ResolvedTarget>, calls: PassCalls)
    requires forall t :: t in targets ==> t.cluster.None? && calls.requestDelete(t.controlPlane) == Applied
    ensures var c := CleanAll(requests, mcps, env, repo, targets, calls); c.mcps == mcps && c.errors == 0
  {
    if targets == [] {
    } else {
      hide AfterDelete, RequestName;
      var front, t := targets[..|targets| - 1], targets[|targets| - 1];
      assert targets == front + [t] && t in targets;
      NoAccessNoCleanup(requests, mcps, env, repo, front, calls);
    }
  }

  /** Every call of a pass succeeds. */
  ghost predicate AllAnswered(calls: PassCalls) {
    && calls.repoRead && calls.update == Applied
    && (forall i :: calls.listOk(i))
    && (forall cp :: calls.access(cp) == ACCESS_OK && calls.requestDelete(cp) == Applied)
  }

  /** A deletion pass that finds none of its requests asks for them again, is not granted access at
      once, and lets the object go without having looked into any MCP. */
  lemma DeletionWithoutRequests(w: World, repo: ObjectKey, env: Env, now: Instant, calls: PassCalls,
                                names: seq<ObjectKey>)
    requires BeingDeleted(w, repo) && AllAnswered(calls)
    requires TargetNames(w.onboarding.repos[repo].spec.propagateTo, w.onboarding.controlPlanes, calls.listOk)
          == Some(names)
    requires forall cp :: cp in names ==> RequestName(env.lib, repo, cp) !in w.requests && ClusterOf(env.lib, cp).Some?
    ensures var after := ReconcilePass(w, repo, env, now, calls).world;
      !FinalizerHeld(after, repo) && after.mcps == w.mcps
  {
    hide TargetNames, ResolveAll, CleanAll, RequestName, ClusterOf;
    AbsentRequestsResolvePending(w.requests, env.lib, repo, names, calls.access);
    var (requests, targets) := TargetsOf(w, repo, env, calls);
    NoAccessNoCleanup(requests, w.mcps, env, repo, targets.value, calls);
    DeletionOutcome(w, repo, env, now, calls);
  }

  /** Deletion is not free of leaks over several passes. If a pass deletes its requests but fails in
      some MCP, the next one, with every call succeeding, finishes and leaves all MCPs as they are. */
  lemma FailedCleanupLeaks(w: World, repo: ObjectKey, env: Env, now: Instant, calls: PassCalls, now': Instant,
                           calls': PassCalls)
    requires BeingDeleted(w, repo) && calls.repoRead && AllAnswered(calls')
    requires TargetsOf(w, repo, env, calls).1.Some?
    requires var targets := TargetsOf(w, repo, env, calls).1.value;
      && (forall t :: t in targets ==> calls.requestDelete(t.controlPlane) == Applied)
      && CleanedBy(w, repo, env, targets, calls).errors > 0
    ensures var first := ReconcilePass(w, repo, env, now, calls).world;
      var second := ReconcilePass(first, repo, env, now', calls').world;
      && FinalizerHeld(first, repo)
      && !FinalizerHeld(second, repo) && second.mcps == first.mcps
  {
    hide ResolveAll, CleanAll, RequestName, ClusterOf, AllAnswered, Candidates, Dedup;
    var gr := w.onboarding.repos[repo];
    var (requests, targets) := TargetsOf(w, repo, env, calls);
    var names := TargetNames(gr.spec.propagateTo, w.onboarding.controlPlanes, calls.listOk).value;
    var first := ReconcilePass(w, repo, env, now, calls).world;
    RequestsCleaned(requests, w.mcps, env, repo, targets.value, calls);
    ResolvedHaveClusters(w.requests, env.lib, repo, names, calls.access);
    forall cp | cp in names
      ensures RequestName(env.lib, repo, cp) !in first.requests
    {
      var i :| 0 <= i < |names| && names[i] == cp;
      assert targets.value[i] in targets.value;
    }
    assert forall i :: calls'.listOk(i) by { Listings(calls'); }
    DeletionWithoutRequests(first, repo, env, now', calls', names);
  }

  lemma Listings(calls: PassCalls)
    requires AllAnswered(calls)
    ensures forall i :: calls.listOk(i)
  {
  }

  /** The smallest case: one granted target whose cleanup reports an error at the first attempt. Then a second
      pass without any failure lets the GitRepository go, and its MCP stays as the first attempt left it. */
  lemma OneTargetLeaks(w: World, repo: ObjectKey, env: Env, now: Instant, calls: PassCalls, now': Instant,
                       calls': PassCalls, t: ResolvedTarget)
    requires BeingDeleted(w, repo) && calls.repoRead && AllAnswered(calls')
    requires TargetsOf(w, repo, env, calls).1 == Some([t]) && t.cluster.Some?
    requires calls.requestDelete(t.controlPlane) == Applied
    requires var st, cleanup := McpAt(w.mcps, t.cluster.value), calls.cleanup(t.controlPlane);
      Remove(st, env.cfg.fluxNamespace, repo, cleanup).result.Some?
    ensures var second := ReconcilePass(ReconcilePass(w, repo, env, now, calls).world, repo, env, now', calls').world;
      && !FinalizerHeld(second, repo)
      && McpAt(second.mcps, t.cluster.value)
         == CleanedMcp(McpAt(w.mcps, t.cluster.value), env, repo, calls.cleanup(t.controlPlane))
  {
    hide Targets, AllAnswered, Remove, AfterDelete, RequestName;
    var (requests, targets) := TargetsOf(w, repo, env, calls);
    assert [t][..0] == [];
    assert CleanAll(requests, w.mcps, env, repo, [], calls) == Cleaned(requests, w.mcps, [], 0);
    CleanAllParts(requests, w.mcps, env, repo, [t], calls, 0, t.cluster.value);
    FailedCleanupLeaks(w, repo, env, now, calls, now', calls');
    DeletionOutcome(w, repo, env, now, calls);
  }

  lemma SingleName(cp: ObjectKey, cps: seq<ControlPlane>, listOk: nat -> bool)
    requires cp.name != ""
    ensures TargetNames([PropagateTarget(KIND_CONTROL_PLANE, cp.namespace, cp.name, map[])], cps, listOk) == Some([cp])
  {
    var t := PropagateTarget(KIND_CONTROL_PLANE, cp.namespace, cp.name, map[]);
    assert [t][..|[t]| - 1] == [] && [cp][..|[cp]| - 1] == [];
    assert Candidates([], cps) == [] && Dedup([]) == [];
    assert Candidates([t], cps) == Candidates([], cps) + [cp] == [cp];
    assert Dedup([cp]) == AddRef(Dedup([]), cp) == [cp];
  }

  /** A GitRepository being deleted, its one control plane granted, and what it owns there. */
  function LeakWorld(repo: ObjectKey, cp: ObjectKey, env: Env, st: Mcp): World
    requires ClusterOf(env.lib, cp).Some?
  {
    var c := ClusterOf(env.lib, cp).value;
    var target := PropagateTarget(KIND_CONTROL_PLANE, cp.namespace, cp.name, map[]);
    var spec := GitRepositorySpec(Source("", GitRef("", "", "")), CredentialRef("", KIND_APP_INSTALLATION), [target]);
    var gr := GitRepository(spec, 1, true, {FINALIZER}, GitRepositoryStatus(map[], 1, []));
    World(Onboarding(map[repo := gr], map[], []),
          map[RequestName(env.lib, repo, cp) := AccessRequest(c, Granted)],
          CredentialStore(map[], map[]),
          map[c := st])
  }

  /** Every call of a pass succeeds, except what `cleanup` says. */
  function CallsWith(cleanup: CleanupCalls): PassCalls {
    var visit := TargetCalls(true, true, SyncCalls(None, true, Applied, true, Applied));
    PassCalls(true, Applied, Applied, true, i => true, k => ACCESS_OK, true, k => true, true, k => visit,
              k => Applied, k => cleanup)
  }

  const CLEANUP_OK := CleanupCalls(true, Applied, true, Applied)

  function TwoPasses(w: World, repo: ObjectKey, env: Env, now: Instant, cleanup: CleanupCalls): World {
    var first := ReconcilePass(w, repo, env, now, CallsWith(cleanup)).world;
    ReconcilePass(first, repo, env, now, CallsWith(CLEANUP_OK)).world
  }

  lemma LeakWorldLeaks(repo: ObjectKey, cp: ObjectKey, env: Env, now: Instant, st: Mcp, cleanup: CleanupCalls)
    requires cp.name != "" && ClusterOf(env.lib, cp).Some?
    requires Remove(st, env.cfg.fluxNamespace, repo, cleanup).result.Some?
    ensures var w := LeakWorld(repo, cp, env, st);
      var second := TwoPasses(w, repo, env, now, cleanup);
      && BeingDeleted(w, repo) && AllAnswered(CallsWith(CLEANUP_OK)) && !FinalizerHeld(second, repo)
      && McpAt(second.mcps, ClusterOf(env.lib, cp).value) == CleanedMcp(st, env, repo, cleanup)
  {
    hide Dedup, Candidates, RequestName, ClusterOf, Remove, CleanedMcp;
    var w, calls := LeakWorld(repo, cp, env, st), CallsWith(cleanup);
    SingleName(cp, [], calls.listOk);
    ResolveSingle(w.requests, env.lib, repo, cp, calls.access);
    OneTargetLeaks(w, repo, env, now, calls, now, CallsWith(CLEANUP_OK),
                   ResolvedTarget(cp, ClusterOf(env.lib, cp), false));
  }

  /** It does happen, to both objects. For any GitRepository, control plane and contents of the MCP that it
      owns objects in, one lost deletion and a second pass without any failure are enough: if that of
      the Flux object is lost, both stay; if it is applied and that of the Secret is lost, the token stays
      although its Flux object and its GitRepository are gone. */
  lemma LeakHappens(repo: ObjectKey, cp: ObjectKey, env: Env, now: Instant, st: Mcp)
    requires cp.name != "" && ClusterOf(env.lib, cp).Some?
    requires OwnedFlux(st, env.cfg.fluxNamespace, repo) && OwnedSecret(st, env.cfg.fluxNamespace, repo)
    ensures var w, c, ns := LeakWorld(repo, cp, env, st), ClusterOf(env.lib, cp).value, env.cfg.fluxNamespace;
      var fluxLost := TwoPasses(w, repo, env, now, CleanupCalls(true, Lost, true, Applied));
      var secretLost := TwoPasses(w, repo, env, now, CleanupCalls(true, Applied, true, Lost));
      && BeingDeleted(w, repo) && AllAnswered(CallsWith(CLEANUP_OK))
      && !FinalizerHeld(fluxLost, repo)
      && OwnedFlux(McpAt(fluxLost.mcps, c), ns, repo) && OwnedSecret(McpAt(fluxLost.mcps, c), ns, repo)
      && !FinalizerHeld(secretLost, repo)
      && !OwnedFlux(McpAt(secretLost.mcps, c), ns, repo) && OwnedSecret(McpAt(secretLost.mcps, c), ns, repo)
  {
    hide OwnedFlux, OwnedSecret, Remove, ApplyAll, ClusterOf, ReconcilePass, LeakWorld, CallsWith, OnlyOwnGone,
      AllAnswered;
    var a, b := CleanupCalls(true, Lost, true, Applied), CleanupCalls(true, Applied, true, Lost);
    RemoveEffect(st, env.cfg.fluxNamespace, repo, a);
    RemoveEffect(st, env.cfg.fluxNamespace, repo, b);
    LeakWorldLeaks(repo, cp, env, now, st, a);
    LeakWorldLeaks(repo, cp, env, now, st, b);
  }

  // ---- Barred control planes ----

  /** Being deleted, with a control plane that has no cluster or denied access. */
  predicate Blocked(w: World, repo: ObjectKey, env: Env, cp: ObjectKey) {
    && BeingDeleted(w, repo) && SlashFreeTargets(w, repo) && WantedBy(w, repo, cp)
    && Barred(w.requests, env.lib, repo, cp)
  }

  /** Then a pass, whatever its calls, removes nothing anywhere, not even a denied request. */
  lemma BlockedPass(w: World, repo: ObjectKey, env: Env, now: Instant, calls: PassCalls, cp: ObjectKey)
    requires Blocked(w, repo, env, cp)
    ensures var p := ReconcilePass(w, repo, env, now, calls);
      && p.world.onboarding == w.onboarding && p.world.mcps == w.mcps && p.writes == []
      && Blocked(p.world, repo, env, cp)
      && (forall name :: name in w.requests ==> name in p.world.requests && p.world.requests[name] == w.requests[name])
  {
    hide Wanted, RequestName, Barred, TargetNames, ResolveAll, CleanAll, SlashFree;
    var gr := w.onboarding.repos[repo];
    BarredTargets(w, repo, gr, env, calls, cp);
    var names := TargetNames(gr.spec.propagateTo, w.onboarding.controlPlanes, calls.listOk);
    if names.Some? {
      ResolveOnlyAdds(w.requests, env.lib, repo, names.value, calls.access);
    }
  }

  function AfterPasses(w: World, repo: ObjectKey, env: Env, inputs: seq<PassInput>): World
    decreases |inputs|
  {
    if inputs == [] then w else AfterPasses(PassAt(w, repo, env, inputs[0]).world, repo, env, inputs[1..])
  }

  /** So the GitRepository cannot be deleted, however many passes are made and however well their calls go,
      and its objects stay in every MCP. */
  lemma {:induction false} BarredNeverDeleted(w: World, repo: ObjectKey, env: Env, inputs: seq<PassInput>,
                                              cp: ObjectKey)
    requires Blocked(w, repo, env, cp)
    ensures var after := AfterPasses(w, repo, env, inputs);
      FinalizerHeld(after, repo) && after.onboarding == w.onboarding && after.mcps == w.mcps
    decreases |inputs|
  {
    if inputs == [] {
    } else {
      hide ReconcilePass, SlashFreeTargets, WantedBy, Barred;
      BlockedPass(w, repo, env, inputs[0].now, inputs[0].calls, cp);
      BarredNeverDeleted(PassAt(w, repo, env, inputs[0]).world, repo, env, inputs[1..], cp);
    }
  }

  /** The deletions that a pass makes in MCPs succeed; reads may fail. */
  ghost predicate DeletionsApplied(calls: PassCalls) {
    forall cp :: calls.cleanup(cp).fluxDelete == Applied && calls.cleanup(cp).secretDelete == Applied
  }

  lemma {:induction false} NoErrorsCounted(requests: Requests, mcps: map<ObjectKey, Mcp>, env: Env, repo: ObjectKey,
                                           targets: seq<ResolvedTarget>, calls: PassCalls)
    requires AllAnswered(calls) && DeletionsApplied(calls)
    ensures CleanAll(requests, mcps, env, repo, targets, calls).errors == 0
  {
    if targets == [] {
    } else {
      hide AfterDelete, RequestName, OwnedFlux, OwnedSecret, Commit;
      NoErrorsCounted(requests, mcps, env, repo, targets[..|targets| - 1], calls);
    }
  }

  /** One pass with every call succeeding removes the finalizer exactly if no wanted control plane is barred. */
  lemma AnsweredPassDeletesExactly(w: World, repo: ObjectKey, env: Env, now: Instant, calls: PassCalls)
    requires BeingDeleted(w, repo) && SlashFreeTargets(w, repo) && AllAnswered(calls) && DeletionsApplied(calls)
    ensures !FinalizerHeld(ReconcilePass(w, repo, env, now, calls).world, repo) <==> NoneBarred(w, repo, env)
  {
    hide Targets, CleanAll, ReconcilePass, NoneBarred, SlashFreeTargets;
    DeletionOutcome(w, repo, env, now, calls);
    ResolvedExactly(w, repo, env, calls);
    var (requests, targets) := TargetsOf(w, repo, env, calls);
    if targets.Some? {
      NoErrorsCounted(requests, w.mcps, env, repo, targets.value, calls);
    }
  }

  /** Exactly which GitRepositories can be deleted: some sequence of passes removes the finalizer if and only
      if each wanted control plane has a cluster and has not denied access. */
  lemma DeletableExactly(w: World, repo: ObjectKey, env: Env)
    requires BeingDeleted(w, repo) && SlashFreeTargets(w, repo)
    ensures (exists inputs :: !FinalizerHeld(AfterPasses(w, repo, env, inputs), repo)) <==> NoneBarred(w, repo, env)
  {
    hide ReconcilePass, SlashFreeTargets, Barred, Wanted;
    if NoneBarred(w, repo, env) {
      var input := PassInput(0, CallsWith(CLEANUP_OK));
      AnsweredPassDeletesExactly(w, repo, env, 0, input.calls);
      assert [input][1..] == [];
      assert AfterPasses(w, repo, env, [input]) == AfterPasses(PassAt(w, repo, env, input).world, repo, env, []);
      assert !FinalizerHeld(AfterPasses(w, repo, env, [input]), repo);
    } else {
      var cp :| WantedBy(w, repo, cp) && Barred(w.requests, env.lib, repo, cp);
      forall inputs
        ensures FinalizerHeld(AfterPasses(w, repo, env, inputs), repo)
      {
        BarredNeverDeleted(w, repo, env, inputs, cp);
      }
    }
  }
}
