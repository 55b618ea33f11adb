/** Whole runs of the GitRepository reconciler over all clusters: how long a token shown in the status
    is good, in the MCP it is meant for. */
module ReconcileRuns {
  import opened Wrappers
  import opened GoTime
  import opened Names
  import opened McpStore
  import opened PlatformStore
  import opened McpAccess
  import opened AccessRequests
  import opened Propagate
  import opened StatusList
  import opened Controller
  import opened GitRepositoryController
  import opened TokenRuns
  import opened TokenValidity
  import opened Convergence
  import opened Deletion
  import opened ReconcilePasses
  import AppInstallations
  import GitHubInstances
  import Credentials
  import Rfc3339

  // ---- Honest Secrets ----

  lemma FewerSecretsStayHonest(st: Mcp, st': Mcp, ns: string, repo: ObjectKey, expiryOf: string -> Instant)
    requires OnlyOwnGone(st, st', ns, repo) && SecretHonest(TokenSecret(st, ns, repo), expiryOf)
    ensures SecretHonest(TokenSecret(st', ns, repo), expiryOf)
  {
  }

  /** Any pass at all, provided that GitHub says when its tokens expire. */
  lemma PassKeepsHonesty(w: World, repo: ObjectKey, env: Env, now: Instant, calls: PassCalls,
                         expiryOf: string -> Instant)
    requires AllReported(calls.targets, expiryOf) && AllHonest(w.mcps, env.cfg, repo, expiryOf)
    ensures AllHonest(ReconcilePass(w, repo, env, now, calls).world.mcps, env.cfg, repo, expiryOf)
  {
    hide Targets, VisitAll, CleanAll, SecretHonest, TokenSecret, OnlyOwnGone, AllReported, ClientReady,
      ResolveCredential;
    if repo in w.onboarding.repos {
      var gr := w.onboarding.repos[repo];
      var (requests, targets) := Targets(w, repo, gr, env, calls);
      if targets.Some? {
        LoopKeepsHonesty(w.mcps, env.cfg, repo, gr.spec.source, targets.value, now, calls.targets, expiryOf);
        var cleaned := CleanAll(requests, w.mcps, env, repo, targets.value, calls).mcps;
        forall c
          ensures SecretHonest(TokenSecret(McpAt(cleaned, c), env.cfg.fluxNamespace, repo), expiryOf)
        {
          CleaningMcps(requests, w.mcps, env, repo, targets.value, calls, c);
          FewerSecretsStayHonest(McpAt(w.mcps, c), McpAt(cleaned, c), env.cfg.fluxNamespace, repo, expiryOf);
        }
      }
    }
  }

  // ---- Runs ----

  ghost predicate SameTokens(w: World, w': World, repo: ObjectKey, env: Env) {
    forall c :: TokenSecret(McpAt(w'.mcps, c), env.cfg.fluxNamespace, repo)
             == TokenSecret(McpAt(w.mcps, c), env.cfg.fluxNamespace, repo)
  }

  /** `worlds[i]` is what pass i finds. Until the next pass everything may change but the token Secrets. */
  ghost predicate TokensKept(worlds: seq<World>, inputs: seq<PassInput>, repo: ObjectKey, env: Env)
    requires |worlds| == |inputs|
  {
    forall i, j :: 0 <= i < |worlds| && j == i + 1 && j < |worlds| ==>
      SameTokens(PassAt(worlds[i], repo, env, inputs[i]).world, worlds[j], repo, env)
  }

  lemma TokensKeptNext(worlds: seq<World>, inputs: seq<PassInput>, repo: ObjectKey, env: Env, i: nat)
    requires |worlds| == |inputs| && i + 1 < |worlds| && TokensKept(worlds, inputs, repo, env)
    ensures SameTokens(PassAt(worlds[i], repo, env, inputs[i]).world, worlds[i + 1], repo, env)
  {
    hide PassAt, SameTokens;
  }

  lemma SameTokensHonest(w: World, w': World, repo: ObjectKey, env: Env, expiryOf: string -> Instant)
    requires SameTokens(w, w', repo, env) && AllHonest(w.mcps, env.cfg, repo, expiryOf)
    ensures AllHonest(w'.mcps, env.cfg, repo, expiryOf)
  {
    hide TokenSecret, SecretHonest;
  }

  /** The passes of a run may take any branch, fail anywhere and come at any time. */
  lemma {:induction false} RunKeepsHonesty(worlds: seq<World>, inputs: seq<PassInput>, repo: ObjectKey, env: Env,
                                           expiryOf: string -> Instant, i: nat)
    requires |worlds| == |inputs| && i < |worlds| && TokensKept(worlds, inputs, repo, env)
    requires forall k :: 0 <= k < |inputs| ==> AllReported(inputs[k].calls.targets, expiryOf)
    requires AllHonest(worlds[0].mcps, env.cfg, repo, expiryOf)
    ensures AllHonest(worlds[i].mcps, env.cfg, repo, expiryOf)
    decreases i
  {
    hide ReconcilePass, AllReported, AllHonest, TokensKept, SameTokens;
    if i == 0 {
    } else {
      var w, input := worlds[i - 1], inputs[i - 1];
      RunKeepsHonesty(worlds, inputs, repo, env, expiryOf, i - 1);
      PassKeepsHonesty(w, repo, env, input.now, input.calls, expiryOf);
      TokensKeptNext(worlds, inputs, repo, env, i - 1);
      SameTokensHonest(PassAt(w, repo, env, input).world, worlds[i], repo, env, expiryOf);
    }
  }

  // ---- Tokens in the right MCP ----

  /** GitHub's expiries are true and beyond the renew buffer, by the margin of a second where control
      planes may share a cluster, and the reads that decide on rotation are answered. */
  ghost predicate SoundCalls(env: Env, input: PassInput, expiryOf: string -> Instant) {
    && AllTruthful(input.calls.targets, input.now, env.cfg.renewBuffer, expiryOf)
    && (ClustersSeparate(env.lib) || AllMargins(input.calls.targets, input.now, env.cfg.renewBuffer))
  }

  /** The token of a control plane, in the MCP that is its own. */
  function BearerOf(w: World, repo: ObjectKey, env: Env, cp: ObjectKey): Option<string> {
    var c := ClusterOf(env.lib, cp);
    if c.None? then None
    else
      var s := TokenSecret(McpAt(w.mcps, c.value), env.cfg.fluxNamespace, repo);
      if s.Some? && BEARER_TOKEN in s.value.data then Some(s.value.data[BEARER_TOKEN]) else None
  }

  /** It is there and unexpired up to and including `until`. */
  predicate TokenHolds(w: World, repo: ObjectKey, env: Env, expiryOf: string -> Instant, cp: ObjectKey, until: Instant)
  {
    var bearer := BearerOf(w, repo, env, cp);
    bearer.Some? && until < expiryOf(bearer.value)
  }

  lemma LoopTargetsAreRight(w: World, repo: ObjectKey, env: Env, input: PassInput, pairs: iset<Pair>)
    requires InUse(w, repo) && GetsThrough(w, repo, env, input.calls) && RightRequests(w, repo, env, pairs)
    ensures var loop := LoopOf(w, repo, env, input.now, input.calls);
      && (forall t :: t in loop.targets && t.cluster.Some? ==> t.cluster == ClusterOf(env.lib, t.controlPlane))
      && (ClustersSeparate(env.lib) ==> ClustersDiffer(loop.targets))
  {
    hide Targets, ClusterOf, RightClusters, NamesSeparate, TargetsAmong, ClientReady, ResolveCredential, Unique,
      SlashFree;
    TargetsKeepRightClusters(w, repo, env, input.calls, pairs);
    TargetsAreWanted(w, repo, w.onboarding.repos[repo], env, input.calls);
    var targets := LoopOf(w, repo, env, input.now, input.calls).targets;
    if ClustersSeparate(env.lib) {
      forall i, j | 0 <= i < j < |targets| && targets[i].cluster.Some?
        ensures targets[i].cluster != targets[j].cluster
      {
        assert targets[i] in targets && targets[j] in targets;
      }
    }
  }

  lemma SoundLoopIsGood(w: World, repo: ObjectKey, env: Env, input: PassInput, pairs: iset<Pair>,
                        expiryOf: string -> Instant)
    requires InUse(w, repo) && GetsThrough(w, repo, env, input.calls) && RightRequests(w, repo, env, pairs)
    requires SoundCalls(env, input, expiryOf)
    ensures GoodPass(LoopOf(w, repo, env, input.now, input.calls), env.cfg, repo, expiryOf)
  {
    hide Targets, AllTruthful, AllMargins, ClustersDiffer, ClustersSeparate, RightRequests, VisitAll, ClientReady,
      ResolveCredential,
      Unique, SlashFree, PlanesSeparate;
    var loop := LoopOf(w, repo, env, input.now, input.calls);
    var gr := w.onboarding.repos[repo];
    LoopTargetsAreRight(w, repo, env, input, pairs);
    ResultsAreUnique(w, repo, gr, env, input.now, input.calls, loop.targets, w.mcps);
    SlashFreeSeparates(gr.status.propagated, VisitsOf(loop, env.cfg, repo).results);
  }

  /** Where a loop backs an entry it does so in the entry's own MCP. */
  lemma BackedInRightCluster(w: World, repo: ObjectKey, env: Env, input: PassInput, pairs: iset<Pair>,
                             expiryOf: string -> Instant, cp: ObjectKey, until: Instant)
    requires InUse(w, repo) && GetsThrough(w, repo, env, input.calls) && RightRequests(w, repo, env, pairs)
    requires BackedUntil(LoopOf(w, repo, env, input.now, input.calls), env.cfg, repo, expiryOf, cp, until)
    ensures var after := PassAt(w, repo, env, input).world;
      BearerOf(after, repo, env, cp).Some? && until <= expiryOf(BearerOf(after, repo, env, cp).value)
  {
    hide GetsThrough, InUse, RightRequests, ReconcilePass, LoopOf, VisitsOf, ListAfter, DelayAfter, TokenSecret,
      ClusterOf, ClustersDiffer;
    var loop := LoopOf(w, repo, env, input.now, input.calls);
    PassIsLoop(w, repo, env, input.now, input.calls);
    LoopTargetsAreRight(w, repo, env, input, pairs);
    var mcps := VisitsOf(loop, env.cfg, repo).mcps;
    var t :| t in loop.targets && t.controlPlane == cp && t.cluster.Some?
          && forall u :: u < until ==>
               TokenGood(TokenSecret(McpAt(mcps, t.cluster.value), env.cfg.fluxNamespace, repo), expiryOf, u);
    assert TokenGood(TokenSecret(McpAt(mcps, t.cluster.value), env.cfg.fluxNamespace, repo), expiryOf, until - 1);
  }

  /** What a pass that gets through promises: every entry with an expiry has its token in its own MCP,
      good for longer than the delay asked for and the renew buffer. */
  lemma LoopEntriesHold(w: World, repo: ObjectKey, env: Env, input: PassInput, pairs: iset<Pair>,
                        expiryOf: string -> Instant, entry: PropagateStatus)
    requires 0 <= env.cfg.renewBuffer < MAX_DURATION && AllHonest(w.mcps, env.cfg, repo, expiryOf)
    requires InUse(w, repo) && RightRequests(w, repo, env, pairs) && SoundCalls(env, input, expiryOf)
    requires GetsThrough(w, repo, env, input.calls) && input.calls.patch == Applied
    requires entry in StatusListOf(PassAt(w, repo, env, input).world, repo) && entry.tokenExpiresAt.Some?
    ensures var p := PassAt(w, repo, env, input);
      && p.result.requeue.After?
      && BearerOf(p.world, repo, env, entry.controlPlane).Some?
      && expiryOf(BearerOf(p.world, repo, env, entry.controlPlane).value)
           >= input.now + p.result.requeue.delay + env.cfg.renewBuffer
  {
    hide GetsThrough, InUse, RightRequests, SoundCalls, ReconcilePass, LoopOf, VisitsOf, ListAfter, DelayAfter,
      AllHonest, GoodPass,
      BearerOf, BackedUntil, StatusListOf;
    var loop := LoopOf(w, repo, env, input.now, input.calls);
    PassIsLoop(w, repo, env, input.now, input.calls);
    LoopStartsAt(w, repo, env, input);
    SoundLoopIsGood(w, repo, env, input, pairs, expiryOf);
    PassIsGood(loop, env.cfg, repo, expiryOf, entry);
    BackedInRightCluster(w, repo, env, input, pairs, expiryOf, entry.controlPlane,
                         input.now + DelayAfter(loop, env.cfg, repo) + env.cfg.renewBuffer);
  }

  lemma LoopStartsAt(w: World, repo: ObjectKey, env: Env, input: PassInput)
    requires GetsThrough(w, repo, env, input.calls)
    ensures var loop := LoopOf(w, repo, env, input.now, input.calls);
      loop.now == input.now && loop.mcps == w.mcps
  {
  }

  /** Tokens never lapse between passes that get through and their next ones: in any run, whatever the
      other passes do, let pass i get through and the next one start less than the renew buffer after
      the delay asked for. Then whatever control plane pass i leaves in the status with an expiry has,
      in its own MCP and nobody else's, a token that is unexpired up to the start of the next pass. */
  lemma TokensHoldInRightCluster(worlds: seq<World>, inputs: seq<PassInput>, repo: ObjectKey, env: Env,
                                 pairs: iset<Pair>, expiryOf: string -> Instant, i: nat, entry: PropagateStatus)
    requires 0 <= env.cfg.renewBuffer < MAX_DURATION
    requires |worlds| == |inputs| && i + 1 < |worlds| && TokensKept(worlds, inputs, repo, env)
    requires forall k :: 0 <= k < |inputs| ==> AllReported(inputs[k].calls.targets, expiryOf)
    requires AllHonest(worlds[0].mcps, env.cfg, repo, expiryOf)
    requires InUse(worlds[i], repo) && RightRequests(worlds[i], repo, env, pairs)
    requires SoundCalls(env, inputs[i], expiryOf)
    requires GetsThrough(worlds[i], repo, env, inputs[i].calls) && inputs[i].calls.patch == Applied
    requires var p := PassAt(worlds[i], repo, env, inputs[i]);
      && entry in StatusListOf(p.world, repo) && entry.tokenExpiresAt.Some?
      && (p.result.requeue.After? ==> inputs[i + 1].now < inputs[i].now + p.result.requeue.delay + env.cfg.renewBuffer)
    ensures TokenHolds(PassAt(worlds[i], repo, env, inputs[i]).world, repo, env, expiryOf, entry.controlPlane,
                       inputs[i + 1].now)
  {
    hide GetsThrough, InUse, RightRequests, SoundCalls, ReconcilePass, AllHonest, AllReported, BearerOf, StatusListOf,
      TokensKept;
    RunKeepsHonesty(worlds, inputs, repo, env, expiryOf, i);
    LoopEntriesHold(worlds[i], repo, env, inputs[i], pairs, expiryOf, entry);
  }

  // ---- Tokens lapse while passes are stuck ----

  /** Pass i is stuck, though the GitRepository is there to be propagated, and the status list is left
      to the reconciler. */
  ghost predicate StuckRun(worlds: seq<World>, inputs: seq<PassInput>, repo: ObjectKey, env: Env)
    requires |worlds| == |inputs|
  {
    && TokensKept(worlds, inputs, repo, env)
    && (forall i :: 0 <= i < |worlds| ==> Alive(worlds[i], repo) && !GetsThrough(worlds[i], repo, env, inputs[i].calls))
    && (forall i, j :: 0 <= i < |worlds| && j == i + 1 && j < |worlds| ==>
          StatusListOf(worlds[j], repo) == StatusListOf(PassAt(worlds[i], repo, env, inputs[i]).world, repo))
  }

  /** However long a run of stuck passes is, the list and all token Secrets stay as they were. */
  lemma {:induction false} StuckRunKeeps(worlds: seq<World>, inputs: seq<PassInput>, repo: ObjectKey, env: Env, i: nat)
    requires |worlds| == |inputs| && i < |worlds| && StuckRun(worlds, inputs, repo, env)
    ensures var p := PassAt(worlds[i], repo, env, inputs[i]);
      && p.minted == [] && p.writes == []
      && StatusListOf(p.world, repo) == StatusListOf(worlds[0], repo)
      && SameTokens(worlds[0], p.world, repo, env)
    decreases i
  {
    hide ReconcilePass, Alive, GetsThrough, StatusListOf, TokenSecret;
    StuckPass(worlds[i], repo, env, inputs[i].now, inputs[i].calls);
    if i == 0 {
    } else {
      StuckRunKeeps(worlds, inputs, repo, env, i - 1);
      assert SameTokens(PassAt(worlds[i - 1], repo, env, inputs[i - 1]).world, worlds[i], repo, env);
    }
  }

  lemma SameBearer(w: World, w': World, repo: ObjectKey, env: Env, cp: ObjectKey)
    requires SameTokens(w, w', repo, env)
    ensures BearerOf(w', repo, env, cp) == BearerOf(w, repo, env, cp)
  {
  }

  /** The exact life of an entry: a pass that gets through leaves it in the status with an expiry, and
      the passes after it are stuck. Then it stays in the status, and holds at an instant exactly as
      long as the token which that pass left in its MCP is unexpired, and surely up to the delay asked
      for and the renew buffer. */
  lemma LapsesExactly(w: World, input: PassInput, worlds: seq<World>, inputs: seq<PassInput>, repo: ObjectKey, env: Env,
                      pairs: iset<Pair>, expiryOf: string -> Instant, entry: PropagateStatus, i: nat, until: Instant)
    requires 0 <= env.cfg.renewBuffer < MAX_DURATION && AllHonest(w.mcps, env.cfg, repo, expiryOf)
    requires InUse(w, repo) && RightRequests(w, repo, env, pairs) && SoundCalls(env, input, expiryOf)
    requires GetsThrough(w, repo, env, input.calls) && input.calls.patch == Applied
    requires entry in StatusListOf(PassAt(w, repo, env, input).world, repo) && entry.tokenExpiresAt.Some?
    requires |worlds| == |inputs| && i < |worlds| && StuckRun(worlds, inputs, repo, env)
    requires var after := PassAt(w, repo, env, input).world;
      SameTokens(after, worlds[0], repo, env) && StatusListOf(worlds[0], repo) == StatusListOf(after, repo)
    ensures var first, last := PassAt(w, repo, env, input), PassAt(worlds[i], repo, env, inputs[i]);
      var bearer := BearerOf(first.world, repo, env, entry.controlPlane);
      && entry in StatusListOf(last.world, repo)
      && first.result.requeue.After? && bearer.Some?
      && expiryOf(bearer.value) >= input.now + first.result.requeue.delay + env.cfg.renewBuffer
      && (TokenHolds(last.world, repo, env, expiryOf, entry.controlPlane, until) <==> until < expiryOf(bearer.value))
  {
    hide GetsThrough, InUse, RightRequests, SoundCalls, ReconcilePass, AllHonest, BearerOf, StatusListOf, SameTokens,
      StuckRun;
    LoopEntriesHold(w, repo, env, input, pairs, expiryOf, entry);
    StuckRunKeeps(worlds, inputs, repo, env, i);
    SameBearer(PassAt(w, repo, env, input).world, worlds[0], repo, env, entry.controlPlane);
    SameBearer(worlds[0], PassAt(worlds[i], repo, env, inputs[i]).world, repo, env, entry.controlPlane);
  }

  /** Pass by pass: an entry that a pass leaves in the status holds up to the next start exactly if the
      pass got through or the token it found there outlives that start. */
  lemma EntryHoldsExactly(w: World, repo: ObjectKey, env: Env, input: PassInput, pairs: iset<Pair>,
                          expiryOf: string -> Instant, entry: PropagateStatus, next: Instant)
    requires 0 <= env.cfg.renewBuffer < MAX_DURATION && AllHonest(w.mcps, env.cfg, repo, expiryOf)
    requires InUse(w, repo) && RightRequests(w, repo, env, pairs) && SoundCalls(env, input, expiryOf)
    requires input.calls.repoRead && input.calls.patch == Applied
    requires entry in StatusListOf(PassAt(w, repo, env, input).world, repo) && entry.tokenExpiresAt.Some?
    requires var requeue := PassAt(w, repo, env, input).result.requeue;
      requeue.After? ==> next < input.now + requeue.delay + env.cfg.renewBuffer
    ensures TokenHolds(PassAt(w, repo, env, input).world, repo, env, expiryOf, entry.controlPlane, next)
       <==> GetsThrough(w, repo, env, input.calls) || TokenHolds(w, repo, env, expiryOf, entry.controlPlane, next)
  {
    hide GetsThrough, RightRequests, SoundCalls, ReconcilePass, AllHonest, StatusListOf, Unique, SlashFree;
    if GetsThrough(w, repo, env, input.calls) {
      LoopEntriesHold(w, repo, env, input, pairs, expiryOf, entry);
    } else {
      StuckPass(w, repo, env, input.now, input.calls);
    }
  }

  /** It does happen without a single failed call: an App in order, a granted control plane `a` whose
      token is shown in the status, and a denied one `b`. From then on every pass leaves all as it is
      and asks for the usual interval, until the token of `a` has expired and ever after. */
  lemma DeniedTokenLapses(repo: ObjectKey, a: ObjectKey, b: ObjectKey, env: Env, tok: TokenResult, appID: string)
    returns (w: World, calls: PassCalls, entry: PropagateStatus)
    requires a.name != "" && b.name != "" && SlashFree(a.namespace) && SlashFree(b.namespace)
    requires RequestName(env.lib, repo, a) != RequestName(env.lib, repo, b)
    requires ClusterOf(env.lib, a).Some? && env.parseInt(appID).Some?
    ensures EveryCallAnswered(calls) && InUse(w, repo) && AppShown(w, repo) && InstanceUsable(w, repo, env, calls)
    ensures RequestName(env.lib, repo, a) in w.requests
         && w.requests[RequestName(env.lib, repo, a)] == AccessRequest(ClusterOf(env.lib, a).value, Granted)
    ensures entry in StatusListOf(w, repo) && entry.controlPlane == a && entry.tokenExpiresAt == Some(tok.expiresAt)
    ensures BearerOf(w, repo, env, a) == Some(tok.token)
    ensures forall now :: var p := ReconcilePass(w, repo, env, now, calls);
      && p.minted == [] && p.result == PassResult(After(REQUEUE_INTERVAL), false)
      && p.world.mcps == w.mcps && StatusListOf(p.world, repo) == StatusListOf(w, repo)
      && forall expiryOf: string -> Instant, until ::
           TokenHolds(p.world, repo, env, expiryOf, a, until) <==> until < expiryOf(tok.token)
  {
    hide Rfc3339.Format, RequestName, ClusterOf, ReconcilePass, SlashFree;
    var c, ns := ClusterOf(env.lib, a).value, env.cfg.fluxNamespace;
    entry := PropagateStatus(a, Ready, "Synced", Some(tok.expiresAt));
    var ta := PropagateTarget(KIND_CONTROL_PLANE, a.namespace, a.name, map[]);
    var tb := PropagateTarget(KIND_CONTROL_PLANE, b.namespace, b.name, map[]);
    var source, ref := Source("", GitRef("", "", "")), CredentialRef("app", KIND_APP_INSTALLATION);
    var spec := GitRepositorySpec(source, ref, [ta, tb]);
    var gr := GitRepository(spec, 1, false, {FINALIZER}, GitRepositoryStatus(map[], 1, [entry]));
    var installed := map[AppInstallations.COND_APP_INSTALLED := GitHubInstances.Condition(GitHubInstances.True, "", 1)];
    var app := App(AppInstallations.AppStatus(1, installed), "github");
    var credentials := map[Credentials.KEY_APP_ID := appID,
                           Credentials.KEY_PRIVATE_KEY := "",
                           Credentials.KEY_URL := ""];
    w := World(Onboarding(map[repo := gr], map[ObjectKey(repo.namespace, "app") := app], []),
               map[RequestName(env.lib, repo, a) := AccessRequest(c, Granted),
                   RequestName(env.lib, repo, b) := AccessRequest(c, Denied)],
               CredentialStore(map["github" := [SecretReference("s", "n")]], map[ObjectKey("n", "s") := credentials]),
               map[c := Mcp(map[SecretKey(ns, repo) := SecretFor(None, repo, tok)], map[])]);
    var visit := TargetCalls(true, true, SyncCalls(None, true, Applied, true, Applied));
    calls := PassCalls(true, Applied, Applied, true, i => true, k => ACCESS_OK, true, k => true, true, k => visit,
                       k => Applied, k => CleanupCalls(true, Applied, true, Applied));
    assert b in RefsOf(tb, []);
    assert Wanted([ta, tb], [], b) by { assert [ta, tb][1] == tb; }
    forall now
      ensures var p := ReconcilePass(w, repo, env, now, calls);
        && p.minted == [] && p.result == PassResult(After(REQUEUE_INTERVAL), false)
        && p.world.mcps == w.mcps && StatusListOf(p.world, repo) == StatusListOf(w, repo)
    {
      BarredStopsRotation(w, repo, env, now, calls, b);
      StuckPass(w, repo, env, now, calls);
    }
  }
}
