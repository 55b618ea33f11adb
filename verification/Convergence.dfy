/** Convergence: with clock and environment frozen and no API errors, the second pass changes
    nothing but the status, and every later one changes nothing at all. */
module Convergence {
  import opened Wrappers
  import opened GoTime
  import opened Names
  import opened McpStore
  import opened PlatformStore
  import opened McpAccess
  import opened AccessRequests
  import opened Propagate
  import opened StatusList
  import opened Deadlines
  import opened GitRepositoryController
  import opened TokenRuns
  import opened TokenValidity
  import Rfc3339

  // ---- AccessRequests ----

  predicate Extends(small: Requests, big: Requests) {
    forall name :: name in small ==> name in big && big[name] == small[name]
  }

  lemma OneSettles(requests: Requests, lib: Library, repo: ObjectKey, cp: ObjectKey, big: Requests)
    requires Extends(AfterOne(requests, lib, repo, cp, ACCESS_OK), big)
    ensures AfterOne(big, lib, repo, cp, ACCESS_OK) == big
    ensures OneResult(big, lib, repo, cp, ACCESS_OK) == OneResult(requests, lib, repo, cp, ACCESS_OK)
  {
  }

  /** Once a pass has ensured its requests, a pass on any store that still has them changes nothing
      and resolves to the same. */
  lemma {:induction false} ResolveSettles(requests: Requests, lib: Library, repo: ObjectKey, refs: seq<ObjectKey>,
                                          calls: CallsFor, big: Requests)
    requires forall cp :: calls(cp) == ACCESS_OK
    requires Extends(ResolveAll(requests, lib, repo, refs, calls).0, big)
    ensures ResolveAll(big, lib, repo, refs, calls) == (big, ResolveAll(requests, lib, repo, refs, calls).1)
  {
    if refs == [] {
    } else {
      hide OneResult;
      var front, cp := refs[..|refs| - 1], refs[|refs| - 1];
      var (requests', r) := ResolveAll(requests, lib, repo, front, calls);
      assert calls(cp) == ACCESS_OK;
      ResolveSettles(requests, lib, repo, front, calls, big);
      if r.Ok? {
        OneSettles(requests', lib, repo, cp, big);
      }
    }
  }

  // ---- One MCP ----

  /** Everything is answered, and the token's expiry is still beyond the buffer once cut to the second. */
  predicate Smooth(calls: TargetCalls, now: Instant, buffer: Duration) {
    && calls.rotationRead && calls.expiryRead
    && calls.sync.mint.Some? && calls.sync.secretRead && calls.sync.secretWrite == Applied
    && calls.sync.fluxRead && calls.sync.fluxWrite == Applied
    && var e := TokenOf(calls.sync.mint.value).expiresAt;
       FourDigitYear(e) && !RotationDue(FloorToSecond(e), now, buffer)
  }

  /** After a visit that writes its Secret, another one right away is due for rotation exactly if
      the expiry, cut to the second, is within the buffer. */
  lemma SecondVisitDue(st: Mcp, cfg: Config, repo: ObjectKey, source: Source, cp: ObjectKey, now: Instant,
                       calls: TargetCalls)
    requires !Fresh(st, cfg, repo, now) && calls.rotationRead && SecretWritten(calls.sync)
    requires FourDigitYear(TokenOf(calls.sync.mint.value).expiresAt)
    ensures Fresh(ApplyAll(st, VisitMcp(st, cfg, repo, source, cp, now, calls).writes), cfg, repo, now)
       <==> !RotationDue(FloorToSecond(TokenOf(calls.sync.mint.value).expiresAt), now, cfg.renewBuffer)
  {
    hide Sync, Rfc3339.Format, Rfc3339.Parse, SecretFor, FourDigitYear, RotationDue;
    SecretAfterSync(st, cfg.fluxNamespace, repo, source, calls.sync);
    StoredExpiryOfToken(TokenSecret(st, cfg.fluxNamespace, repo), repo, TokenOf(calls.sync.mint.value));
  }

  lemma VisitMakesFresh(st: Mcp, cfg: Config, repo: ObjectKey, source: Source, cp: ObjectKey, now: Instant,
                        calls: TargetCalls)
    requires Smooth(calls, now, cfg.renewBuffer)
    ensures Fresh(ApplyAll(st, VisitMcp(st, cfg, repo, source, cp, now, calls).writes), cfg, repo, now)
  {
    hide Sync, FourDigitYear, RotationDue;
    if !Fresh(st, cfg, repo, now) {
      SecondVisitDue(st, cfg, repo, source, cp, now, calls);
    }
  }

  /** How a second report follows from the first: it repeats it, except that the expiry of a new
      token is cut to the second and that a conflict is no longer mentioned. */
  predicate Confirms(first: PropagateStatus, second: PropagateStatus) {
    || second == first
    || (first.phase == Ready && first.tokenExpiresAt.Some?
        && second == first.(tokenExpiresAt := Some(FloorToSecond(first.tokenExpiresAt.value))))
    || (first.phase == Conflict && second.controlPlane == first.controlPlane
        && second.phase == Ready && second.reason == "Synced" && second.tokenExpiresAt.Some?)
  }

  lemma SecondVisit(st: Mcp, cfg: Config, repo: ObjectKey, source: Source, cp: ObjectKey, now: Instant,
                    calls: TargetCalls)
    requires Smooth(calls, now, cfg.renewBuffer)
    ensures var first := VisitMcp(st, cfg, repo, source, cp, now, calls);
      var second := VisitMcp(ApplyAll(st, first.writes), cfg, repo, source, cp, now, calls);
      && second.writes == [] && second.minted == []
      && Confirms(first.status, second.status)
  {
    hide SecretFor, Rfc3339.Format, Rfc3339.Parse, FourDigitYear, RotationDue;
    VisitMakesFresh(st, cfg, repo, source, cp, now, calls);
    if Fresh(st, cfg, repo, now) {
      NoWrites(st);
    } else {
      SecretAfterSync(st, cfg.fluxNamespace, repo, source, calls.sync);
      StoredExpiryOfToken(TokenSecret(st, cfg.fluxNamespace, repo), repo, TokenOf(calls.sync.mint.value));
    }
  }

  /** After a visit that reports a conflict, a later one does so again exactly if the token it wrote
      is due by then, cut to the second, and the calls up to the Flux object succeed; otherwise the
      Flux object is still someone else's, but nothing says so. */
  lemma ConflictReportedAgain(st: Mcp, cfg: Config, repo: ObjectKey, source: Source, cp: ObjectKey, now: Instant,
                              calls: TargetCalls, now': Instant, calls': TargetCalls)
    requires calls'.rotationRead
    requires VisitMcp(st, cfg, repo, source, cp, now, calls).status.phase == Conflict
    requires FourDigitYear(TokenOf(calls.sync.mint.value).expiresAt)
    ensures var st' := ApplyAll(st, VisitMcp(st, cfg, repo, source, cp, now, calls).writes);
      var again := VisitMcp(st', cfg, repo, source, cp, now', calls').status;
      && ForeignFlux(st', cfg.fluxNamespace, repo)
      && (again.phase == Conflict <==>
            && RotationDue(FloorToSecond(TokenOf(calls.sync.mint.value).expiresAt), now', cfg.renewBuffer)
            && SyncAnswered(calls'.sync))
      && (again.phase == Ready <==>
            !RotationDue(FloorToSecond(TokenOf(calls.sync.mint.value).expiresAt), now', cfg.renewBuffer))
  {
    hide Sync, FourDigitYear, RotationDue, SecretFor, Rfc3339.Parse, Rfc3339.Format;
    var ns := cfg.fluxNamespace;
    var st' := ApplyAll(st, VisitMcp(st, cfg, repo, source, cp, now, calls).writes);
    SyncDelivers(st, ns, repo, source, calls.sync);
    SecretAfterSync(st, ns, repo, source, calls.sync);
    StoredExpiryOfToken(TokenSecret(st, ns, repo), repo, TokenOf(calls.sync.mint.value));
    SyncDelivers(st', ns, repo, source, calls'.sync);
  }

  // ---- All MCPs ----

  predicate Settled(mcps: map<ObjectKey, Mcp>, cfg: Config, repo: ObjectKey, targets: seq<ResolvedTarget>, now: Instant)
  {
    forall t :: t in targets && !t.pending && t.cluster.Some? ==> Fresh(McpAt(mcps, t.cluster.value), cfg, repo, now)
  }

  ghost predicate AllSmooth(calls: TargetCallsFor, now: Instant, buffer: Duration) {
    forall cp :: Smooth(calls(cp), now, buffer)
  }

  /** One visit: its own target is fresh afterwards, one that already was is left as it was. */
  lemma VisitSettles(mcps: map<ObjectKey, Mcp>, cfg: Config, repo: ObjectKey, source: Source, t: ResolvedTarget,
                     now: Instant, calls: TargetCalls, c: ObjectKey)
    requires Smooth(calls, now, cfg.renewBuffer)
    ensures var after := AfterVisit(mcps, t, VisitTarget(mcps, cfg, repo, source, t, now, calls));
      && (!t.pending && t.cluster == Some(c) ==> Fresh(McpAt(after, c), cfg, repo, now))
      && (Fresh(McpAt(mcps, c), cfg, repo, now) ==> McpAt(after, c) == McpAt(mcps, c))
  {
    hide Sync, NeedsRotation, CurrentTokenExpiry, RotationDue, FourDigitYear, ApplyAll;
    if t.cluster.Some? {
      var v := VisitTarget(mcps, cfg, repo, source, t, now, calls);
      McpAtCommit(mcps, t.cluster.value, v.writes, c);
      NoWrites(McpAt(mcps, c));
      if !t.pending && t.cluster == Some(c) {
        VisitMakesFresh(McpAt(mcps, c), cfg, repo, source, t.controlPlane, now, calls);
      }
    }
  }

  lemma {:induction false} LoopSettles(mcps: map<ObjectKey, Mcp>, cfg: Config, repo: ObjectKey, source: Source,
                                       targets: seq<ResolvedTarget>, now: Instant, calls: TargetCallsFor)
    requires AllSmooth(calls, now, cfg.renewBuffer)
    ensures Settled(VisitAll(mcps, cfg, repo, source, targets, now, calls).mcps, cfg, repo, targets, now)
  {
    if targets == [] {
    } else {
      hide VisitTarget, AfterVisit, Fresh, Smooth;
      var front, t := targets[..|targets| - 1], targets[|targets| - 1];
      assert targets == front + [t];
      LoopSettles(mcps, cfg, repo, source, front, now, calls);
      var before := VisitAll(mcps, cfg, repo, source, front, now, calls);
      forall u | u in targets && !u.pending && u.cluster.Some?
        ensures var after := VisitAll(mcps, cfg, repo, source, targets, now, calls).mcps;
          Fresh(McpAt(after, u.cluster.value), cfg, repo, now)
      {
        VisitSettles(before.mcps, cfg, repo, source, t, now, calls(t.controlPlane), u.cluster.value);
      }
    }
  }

  function SecondReport(mcps: map<ObjectKey, Mcp>, cfg: Config, repo: ObjectKey, source: Source, t: ResolvedTarget,
                        now: Instant, calls: TargetCallsFor): PropagateStatus
  {
    VisitTarget(mcps, cfg, repo, source, t, now, calls(t.controlPlane)).status
  }

  lemma VisitConfirmed(mcps: map<ObjectKey, Mcp>, cfg: Config, repo: ObjectKey, source: Source, t: ResolvedTarget,
                       now: Instant, calls: TargetCallsFor)
    requires AllSmooth(calls, now, cfg.renewBuffer)
    ensures var v := VisitTarget(mcps, cfg, repo, source, t, now, calls(t.controlPlane));
      Confirms(v.status, SecondReport(AfterVisit(mcps, t, v), cfg, repo, source, t, now, calls))
  {
    hide VisitMcp, Smooth, ApplyAll;
    if !t.pending && t.cluster.Some? {
      var c, st := t.cluster.value, McpAt(mcps, t.cluster.value);
      SecondVisit(st, cfg, repo, source, t.controlPlane, now, calls(t.controlPlane));
      McpAtCommit(mcps, c, VisitMcp(st, cfg, repo, source, t.controlPlane, now, calls(t.controlPlane)).writes, c);
    }
  }

  /** The second report on each target of a loop confirms the first, even where targets share a cluster. */
  lemma {:induction false} LoopConfirmed(mcps: map<ObjectKey, Mcp>, cfg: Config, repo: ObjectKey, source: Source,
                                         targets: seq<ResolvedTarget>, now: Instant, calls: TargetCallsFor, i: nat)
    requires AllSmooth(calls, now, cfg.renewBuffer) && i < |targets|
    ensures var v := VisitAll(mcps, cfg, repo, source, targets, now, calls);
      Confirms(v.results[i], SecondReport(v.mcps, cfg, repo, source, targets[i], now, calls))
  {
    hide AfterVisit, Fresh, Smooth, Confirms, VisitMcp;
    var front, t := targets[..|targets| - 1], targets[|targets| - 1];
    var before := VisitAll(mcps, cfg, repo, source, front, now, calls);
    if i == |front| {
      VisitConfirmed(before.mcps, cfg, repo, source, t, now, calls);
    } else {
      var u := targets[i];
      assert front[i] == u && u in front;
      LoopConfirmed(mcps, cfg, repo, source, front, now, calls, i);
      LoopSettles(mcps, cfg, repo, source, front, now, calls);
      if !u.pending && u.cluster.Some? {
        VisitSettles(before.mcps, cfg, repo, source, t, now, calls(t.controlPlane), u.cluster.value);
      }
    }
  }

  lemma FreshVisitIsQuiet(mcps: map<ObjectKey, Mcp>, cfg: Config, repo: ObjectKey, source: Source, t: ResolvedTarget,
                          now: Instant, calls: TargetCalls)
    requires Smooth(calls, now, cfg.renewBuffer)
    requires !t.pending && t.cluster.Some? ==> Fresh(McpAt(mcps, t.cluster.value), cfg, repo, now)
    ensures var v := VisitTarget(mcps, cfg, repo, source, t, now, calls);
      v.minted == [] && WritesOf(t, v) == [] && AfterVisit(mcps, t, v) == mcps
  {
    hide Sync, NeedsRotation, CurrentTokenExpiry;
  }

  lemma {:induction false} SettledLoopIsQuiet(mcps: map<ObjectKey, Mcp>, cfg: Config, repo: ObjectKey, source: Source,
                                              targets: seq<ResolvedTarget>, now: Instant, calls: TargetCallsFor)
    requires AllSmooth(calls, now, cfg.renewBuffer)
    requires Settled(mcps, cfg, repo, targets, now)
    ensures var v := VisitAll(mcps, cfg, repo, source, targets, now, calls);
      v.mcps == mcps && v.writes == [] && v.minted == []
  {
    if targets == [] {
    } else {
      hide VisitTarget, AfterVisit, WritesOf, Fresh, Smooth;
      var front, t := targets[..|targets| - 1], targets[|targets| - 1];
      assert targets == front + [t] && t in targets;
      SettledLoopIsQuiet(mcps, cfg, repo, source, front, now, calls);
      FreshVisitIsQuiet(mcps, cfg, repo, source, t, now, calls(t.controlPlane));
    }
  }

  lemma {:induction false} SettledReports(mcps: map<ObjectKey, Mcp>, cfg: Config, repo: ObjectKey, source: Source,
                                          targets: seq<ResolvedTarget>, now: Instant, calls: TargetCallsFor, i: nat)
    requires AllSmooth(calls, now, cfg.renewBuffer) && i < |targets|
    requires Settled(mcps, cfg, repo, targets, now)
    ensures VisitAll(mcps, cfg, repo, source, targets, now, calls).results[i]
         == SecondReport(mcps, cfg, repo, source, targets[i], now, calls)
  {
    hide VisitTarget, AfterVisit, Fresh, Smooth;
    var front := targets[..|targets| - 1];
    assert Settled(mcps, cfg, repo, front, now);
    if i < |front| {
      SettledReports(mcps, cfg, repo, source, front, now, calls, i);
    } else {
      SettledLoopIsQuiet(mcps, cfg, repo, source, front, now, calls);
    }
  }

  // ---- The whole pass ----

  ghost predicate NoErrors(calls: PassCalls, now: Instant, buffer: Duration) {
    && calls.repoRead && calls.update == Applied && calls.patch == Applied && calls.appRead
    && (forall i :: calls.listOk(i))
    && (forall cp :: calls.access(cp) == ACCESS_OK)
    && AllSmooth(calls.targets, now, buffer)
  }

  /** A GitRepository that is propagated, its list and targets in namespaces without "/". */
  predicate InUse(w: World, repo: ObjectKey) {
    && repo in w.onboarding.repos
    && var gr := w.onboarding.repos[repo];
       && !gr.deleting && FINALIZER in gr.finalizers
       && Unique(gr.status.propagated)
       && (forall ps :: ps in gr.status.propagated ==> SlashFree(ps.controlPlane.namespace))
       && (forall i :: 0 <= i < |gr.spec.propagateTo| ==> SlashFree(gr.spec.propagateTo[i].namespace))
  }

  /** The targets of a pass are the wanted control planes, each once, all in namespaces without "/". */
  lemma TargetsAreWanted(w: World, repo: ObjectKey, gr: GitRepository, env: Env, calls: PassCalls)
    requires forall i :: 0 <= i < |gr.spec.propagateTo| ==> SlashFree(gr.spec.propagateTo[i].namespace)
    requires Targets(w, repo, gr, env, calls).1.Some?
    ensures var targets := Targets(w, repo, gr, env, calls).1.value;
      && (forall i, j :: 0 <= i < j < |targets| ==> targets[i].controlPlane != targets[j].controlPlane)
      && (forall i :: 0 <= i < |targets| ==> SlashFree(targets[i].controlPlane.namespace))
      && forall cp :: (exists i :: 0 <= i < |targets| && targets[i].controlPlane == cp)
           <==> Wanted(gr.spec.propagateTo, w.onboarding.controlPlanes, cp)
  {
    hide ResolveAll, Wanted, Dedup, DedupPairs, Candidates, SlashFree;
    var targets := Targets(w, repo, gr, env, calls).1.value;
    var names := TargetNames(gr.spec.propagateTo, w.onboarding.controlPlanes, calls.listOk).value;
    ResolvedNames(gr.spec.propagateTo, w.onboarding.controlPlanes);
    assert |targets| == |names|;
    assert forall i :: 0 <= i < |names| ==> targets[i].controlPlane == names[i] && names[i] in names;
    forall i | 0 <= i < |targets|
      ensures SlashFree(targets[i].controlPlane.namespace)
    {
      WantedSlashFree(gr.spec.propagateTo, w.onboarding.controlPlanes, names[i]);
    }
  }

  /** The results of a pass have one entry for each control plane, all without "/". */
  lemma ResultsAreUnique(w: World, repo: ObjectKey, gr: GitRepository, env: Env, now: Instant, calls: PassCalls,
                         targets: seq<ResolvedTarget>, mcps: map<ObjectKey, Mcp>)
    requires forall i :: 0 <= i < |gr.spec.propagateTo| ==> SlashFree(gr.spec.propagateTo[i].namespace)
    requires Targets(w, repo, gr, env, calls).1 == Some(targets)
    ensures var rs := VisitAll(mcps, env.cfg, repo, gr.spec.source, targets, now, calls.targets).results;
      && Unique(rs) && (forall ps :: ps in rs ==> SlashFree(ps.controlPlane.namespace))
      && DesiredKeys(targets) == Desired(rs)
  {
    hide Targets, VisitTarget, AfterVisit, Wanted, SlashFree, DesiredKeys, Desired;
    TargetsAreWanted(w, repo, gr, env, calls);
    DesiredKeysAreResults(LoopPass(mcps, [], gr.spec.source, targets, now, calls.targets), env.cfg, repo);
  }

  lemma WantedSlashFree(targets: seq<PropagateTarget>, cps: seq<ControlPlane>, k: ObjectKey)
    requires forall i :: 0 <= i < |targets| ==> SlashFree(targets[i].namespace)
    requires Wanted(targets, cps, k)
    ensures SlashFree(k.namespace)
  {
    var i :| 0 <= i < |targets| && k in RefsOf(targets[i], cps);
    ListedMeaning(targets[i], cps, k);
  }

  lemma SlashFreeSeparates(list: Statuses, results: Statuses)
    requires forall ps :: ps in list ==> SlashFree(ps.controlPlane.namespace)
    requires forall ps :: ps in results ==> SlashFree(ps.controlPlane.namespace)
    ensures PlanesSeparate(list, results)
  {
    forall p, q | (p in list || p in results) && q in results && SlashKey(p.controlPlane) == SlashKey(q.controlPlane)
      ensures p.controlPlane == q.controlPlane
    {
      SlashKeyInjective(p.controlPlane, q.controlPlane);
    }
  }

  /** The status list after a pass that reaches the loop. */
  lemma ListStaysInUse(list: Statuses, results: Statuses)
    requires Unique(list) && Unique(results)
    requires forall ps :: ps in list ==> SlashFree(ps.controlPlane.namespace)
    requires forall ps :: ps in results ==> SlashFree(ps.controlPlane.namespace)
    ensures Unique(UpdatedStatuses(list, results))
    ensures forall ps :: ps in UpdatedStatuses(list, results) ==> SlashFree(ps.controlPlane.namespace)
    ensures UpdatedStatuses(UpdatedStatuses(list, results), results) == UpdatedStatuses(list, results)
  {
    SlashFreeSeparates(list, results);
    UpdatedIsMap(list, results);
    UpdatedIsFixpoint(list, results);
  }

  /** The same pass again: same spec, same surroundings, what the first one left behind. */
  predicate Continues(w: World, gr: GitRepository, p: Propagation, w1: World, gr1: GitRepository) {
    && w1.onboarding.controlPlanes == w.onboarding.controlPlanes && w1.credentials == w.credentials
    && w1.requests == p.requests && w1.mcps == p.mcps
    && gr1.spec == gr.spec && gr1.status.propagated == p.propagated
  }

  predicate ListInUse(gr: GitRepository) {
    && Unique(gr.status.propagated)
    && (forall ps :: ps in gr.status.propagated ==> SlashFree(ps.controlPlane.namespace))
    && (forall i :: 0 <= i < |gr.spec.propagateTo| ==> SlashFree(gr.spec.propagateTo[i].namespace))
  }

  lemma TargetsSettle(w: World, repo: ObjectKey, gr: GitRepository, env: Env, calls: PassCalls, w1: World,
                      gr1: GitRepository)
    requires forall cp :: calls.access(cp) == ACCESS_OK
    requires w1.onboarding.controlPlanes == w.onboarding.controlPlanes && gr1.spec == gr.spec
    requires w1.requests == Targets(w, repo, gr, env, calls).0
    ensures Targets(w1, repo, gr1, env, calls) == Targets(w, repo, gr, env, calls)
  {
    var names := TargetNames(gr.spec.propagateTo, w.onboarding.controlPlanes, calls.listOk);
    if names.Some? {
      ResolveSettles(w.requests, env.lib, repo, names.value, calls.access, w1.requests);
    }
  }

  /** Every entry of the second list confirms one of the first. */
  ghost predicate ListConfirms(first: Statuses, second: Statuses) {
    forall ps :: ps in second ==> exists ps0 :: ps0 in first && Confirms(ps0, ps)
  }

  lemma SameListConfirms(list: Statuses)
    ensures ListConfirms(list, list)
  {
  }

  lemma ListsConfirmed(list: Statuses, list1: Statuses, cfg: Config, repo: ObjectKey, p: LoopPass)
    requires AllSmooth(p.calls, p.now, cfg.renewBuffer)
    requires var first := VisitsOf(p, cfg, repo);
      var second := VisitAll(first.mcps, cfg, repo, p.source, p.targets, p.now, p.calls);
      && list1 == UpdatedStatuses(list, first.results)
      && Unique(list) && Unique(first.results) && PlanesSeparate(list, first.results)
      && Unique(list1) && Unique(second.results) && PlanesSeparate(list1, second.results)
    ensures var second := VisitAll(VisitsOf(p, cfg, repo).mcps, cfg, repo, p.source, p.targets, p.now, p.calls);
      ListConfirms(list1, UpdatedStatuses(list1, second.results))
  {
    hide UpdatedStatuses, Unique, PlanesSeparate, Confirms, Settled, VisitTarget, Smooth;
    var first := VisitsOf(p, cfg, repo);
    var second := VisitAll(first.mcps, cfg, repo, p.source, p.targets, p.now, p.calls);
    LoopSettles(p.mcps, cfg, repo, p.source, p.targets, p.now, p.calls);
    UpdatedIsMap(list, first.results);
    UpdatedIsMap(list1, second.results);
    forall ps | ps in second.results
      ensures exists ps0 :: ps0 in list1 && Confirms(ps0, ps)
    {
      var i :| 0 <= i < |second.results| && second.results[i] == ps;
      LoopConfirmed(p.mcps, cfg, repo, p.source, p.targets, p.now, p.calls, i);
      SettledReports(first.mcps, cfg, repo, p.source, p.targets, p.now, p.calls, i);
      assert first.results[i] in list1;
    }
  }

  /** The two loops, the second of which starts from the list and the MCPs that the first one leaves. */
  lemma SecondLoop(w: World, repo: ObjectKey, gr: GitRepository, env: Env, now: Instant, calls: PassCalls,
                   targets: seq<ResolvedTarget>, list1: Statuses)
    requires NoErrors(calls, now, env.cfg.renewBuffer) && ListInUse(gr)
    requires Targets(w, repo, gr, env, calls).1 == Some(targets)
    requires var v := VisitAll(w.mcps, env.cfg, repo, gr.spec.source, targets, now, calls.targets);
      list1 == Keep(UpsertAll(gr.status.propagated, v.results), DesiredKeys(targets))
    ensures Unique(list1) && forall ps :: ps in list1 ==> SlashFree(ps.controlPlane.namespace)
    ensures var v := VisitAll(w.mcps, env.cfg, repo, gr.spec.source, targets, now, calls.targets);
      var second := VisitAll(v.mcps, env.cfg, repo, gr.spec.source, targets, now, calls.targets);
      && second.mcps == v.mcps && second.writes == [] && second.minted == []
      && ListConfirms(list1, Keep(UpsertAll(list1, second.results), DesiredKeys(targets)))
  {
    hide Targets, VisitAll, Keep, UpsertAll, Settled, DesiredKeys, ListConfirms, Unique;
    var v := VisitAll(w.mcps, env.cfg, repo, gr.spec.source, targets, now, calls.targets);
    var second := VisitAll(v.mcps, env.cfg, repo, gr.spec.source, targets, now, calls.targets);
    LoopSettles(w.mcps, env.cfg, repo, gr.spec.source, targets, now, calls.targets);
    SettledLoopIsQuiet(v.mcps, env.cfg, repo, gr.spec.source, targets, now, calls.targets);
    ResultsAreUnique(w, repo, gr, env, now, calls, targets, w.mcps);
    ListStaysInUse(gr.status.propagated, v.results);
    ResultsAreUnique(w, repo, gr, env, now, calls, targets, v.mcps);
    SlashFreeSeparates(gr.status.propagated, v.results);
    SlashFreeSeparates(list1, second.results);
    ListsConfirmed(gr.status.propagated, list1, env.cfg, repo,
                   LoopPass(w.mcps, [], gr.spec.source, targets, now, calls.targets));
  }

  lemma SecondPropagation(w: World, repo: ObjectKey, gr: GitRepository, app: App, env: Env, now: Instant,
                          calls: PassCalls, w1: World, gr1: GitRepository)
    requires NoErrors(calls, now, env.cfg.renewBuffer) && ListInUse(gr)
    requires Continues(w, gr, PropagateAll(w, repo, gr, app, env, now, calls), w1, gr1)
    ensures ListInUse(gr1)
    ensures var q := PropagateAll(w1, repo, gr1, app, env, now, calls);
      && q.requests == w1.requests && q.mcps == w1.mcps && q.writes == [] && q.minted == []
      && ListConfirms(gr1.status.propagated, q.propagated)
  {
    hide ResolveAll, VisitAll, TargetNames, Fold, DeadlinesOf, Keep, UpsertAll, DesiredKeys, ListConfirms, NoErrors;
    assert forall cp :: calls.access(cp) == ACCESS_OK by { AccessAnswered(calls, now, env.cfg.renewBuffer); }
    TargetsSettle(w, repo, gr, env, calls, w1, gr1);
    var targets := Targets(w, repo, gr, env, calls).1;
    if targets.Some? && ClientReady(w, app, env, calls) {
      SecondLoop(w, repo, gr, env, now, calls, targets.value, gr1.status.propagated);
    } else {
      SameListConfirms(gr1.status.propagated);
    }
  }

  lemma AccessAnswered(calls: PassCalls, now: Instant, buffer: Duration)
    requires NoErrors(calls, now, buffer)
    ensures forall cp :: calls.access(cp) == ACCESS_OK
  {
  }

  lemma ThirdPropagation(w: World, repo: ObjectKey, gr: GitRepository, app: App, env: Env, now: Instant,
                         calls: PassCalls, w1: World, gr1: GitRepository)
    requires NoErrors(calls, now, env.cfg.renewBuffer) && ListInUse(gr)
    requires Continues(w, gr, PropagateAll(w, repo, gr, app, env, now, calls), w1, gr1)
    requires w1.requests == w.requests && w1.mcps == w.mcps
    requires PropagateAll(w, repo, gr, app, env, now, calls).minted == []
    ensures PropagateAll(w1, repo, gr1, app, env, now, calls) == PropagateAll(w, repo, gr, app, env, now, calls)
  {
    hide ResolveAll, VisitAll, TargetNames, Fold, DeadlinesOf, Keep, UpsertAll, Mints;
    TargetsSettle(w, repo, gr, env, calls, w1, gr1);
    var targets := Targets(w, repo, gr, env, calls).1;
    if targets.Some? && ClientReady(w, app, env, calls) {
      var v := VisitAll(w.mcps, env.cfg, repo, gr.spec.source, targets.value, now, calls.targets);
      ResultsAreUnique(w, repo, gr, env, now, calls, targets.value, w.mcps);
      ListStaysInUse(gr.status.propagated, v.results);
    }
  }

  /** Setting both conditions again changes neither of them. */
  lemma StatusSettles(gr: GitRepository, r: Result<App, string>, propagated: Statuses, propagated': Statuses)
    ensures StatusAfter(gr.(status := StatusAfter(gr, r, propagated)), r, propagated')
         == StatusAfter(gr, r, propagated')
  {
  }

  function StatusListOf(w: World, repo: ObjectKey): Statuses {
    if repo in w.onboarding.repos then w.onboarding.repos[repo].status.propagated else []
  }

  /** Convergence: the second pass mints nothing, writes nothing to any MCP or to the platform
      cluster and confirms what the first reported, and from then on a pass finds everything, the
      status included, as it leaves it. */
  lemma PassesConverge(w: World, repo: ObjectKey, env: Env, now: Instant, calls: PassCalls)
    requires InUse(w, repo) && NoErrors(calls, now, env.cfg.renewBuffer)
    ensures var first := ReconcilePass(w, repo, env, now, calls);
      var second := ReconcilePass(first.world, repo, env, now, calls);
      && second.minted == [] && second.writes == []
      && second.world.mcps == first.world.mcps && second.world.requests == first.world.requests
      && ListConfirms(StatusListOf(first.world, repo), StatusListOf(second.world, repo))
      && ReconcilePass(second.world, repo, env, now, calls) == second
  {
    hide PropagateAll, ListInUse, NoErrors, StatusAfter, ListConfirms;
    assert calls.repoRead && calls.patch == Applied by { CallsAnswered(calls, now, env.cfg.renewBuffer); }
    var gr := w.onboarding.repos[repo];
    var r := ResolveCredential(w.onboarding.apps, repo, gr.spec.credentialRef, calls.appRead);
    var w1 := ReconcilePass(w, repo, env, now, calls).world;
    var gr1 := w1.onboarding.repos[repo];
    if r.Ok? {
      StatusAfterKeeps(gr, r, PropagateAll(w, repo, gr, r.value, env, now, calls).propagated);
      assert ListInUse(gr) by { InUseList(w, repo); }
      SecondPropagation(w, repo, gr, r.value, env, now, calls, w1, gr1);
      var w2 := ReconcilePass(w1, repo, env, now, calls).world;
      StatusAfterKeeps(gr1, r, PropagateAll(w1, repo, gr1, r.value, env, now, calls).propagated);
      ThirdPropagation(w1, repo, gr1, r.value, env, now, calls, w2, w2.onboarding.repos[repo]);
      var p := PropagateAll(w1, repo, gr1, r.value, env, now, calls);
      StatusSettles(gr1, r, p.propagated, p.propagated);
      assert PropagateAll(w2, repo, w2.onboarding.repos[repo], r.value, env, now, calls) == p;
      assert ReconcilePass(w2, repo, env, now, calls).world.onboarding.repos == w2.onboarding.repos;
    } else {
      StatusAfterKeeps(gr, r, gr.status.propagated);
      SameListConfirms(gr.status.propagated);
      StatusSettles(gr, r, gr.status.propagated, gr.status.propagated);
    }
  }

  lemma StatusAfterKeeps(gr: GitRepository, r: Result<App, string>, propagated: Statuses)
    ensures StatusAfter(gr, r, propagated).propagated == propagated
  {
  }

  lemma CallsAnswered(calls: PassCalls, now: Instant, buffer: Duration)
    requires NoErrors(calls, now, buffer)
    ensures calls.repoRead && calls.patch == Applied
  {
  }

  lemma InUseList(w: World, repo: ObjectKey)
    requires InUse(w, repo)
    ensures ListInUse(w.onboarding.repos[repo])
  {
  }
}
