/** How often whole passes of the reconciler mint a token for one MCP or one control plane. The passes
    may take any branch, fail at any call and be triggered at any time. */
module MintRuns {
  import opened Wrappers
  import opened GoTime
  import opened Names
  import opened McpStore
  import opened AccessRequests
  import opened Propagate
  import opened GitRepositoryController
  import opened TokenRuns
  import opened TokenValidity
  import opened Convergence
  import opened ReconcilePasses
  import opened ReconcileRuns
  import opened RateBound
  import Rfc3339

  // ---- One loop ----

  /** The MCPs when the turn of target `i` comes. */
  function McpsBefore(p: LoopPass, cfg: Config, repo: ObjectKey, i: nat): map<ObjectKey, Mcp>
    requires i <= |p.targets|
  {
    VisitAll(p.mcps, cfg, repo, p.source, p.targets[..i], p.now, p.calls).mcps
  }

  function TurnOf(p: LoopPass, cfg: Config, repo: ObjectKey, i: nat): Visit
    requires i < |p.targets|
  {
    var t := p.targets[i];
    VisitTarget(McpsBefore(p, cfg, repo, i), cfg, repo, p.source, t, p.now, p.calls(t.controlPlane))
  }

  lemma NextMcps(p: LoopPass, cfg: Config, repo: ObjectKey, i: nat)
    requires i < |p.targets|
    ensures McpsBefore(p, cfg, repo, i + 1)
         == AfterVisit(McpsBefore(p, cfg, repo, i), p.targets[i], TurnOf(p, cfg, repo, i))
  {
    hide VisitTarget, AfterVisit;
    assert p.targets[..i + 1][..i] == p.targets[..i];
  }

  /** Every token lives for at least `life` and is written to its Secret. */
  ghost predicate AllLongLived(p: LoopPass, repo: ObjectKey, life: int) {
    forall cp :: LongLived(Call(p.now, repo, p.source, cp, p.calls(cp)), life)
  }

  predicate MintsTurn(p: LoopPass, cfg: Config, repo: ObjectKey, c: ObjectKey, i: nat) {
    i < |p.targets| && p.targets[i].cluster == Some(c) && TurnOf(p, cfg, repo, i).minted != []
  }

  /** A turn leaves an expiry beyond `t` in the MCP if it found one, or if it mints for it; and if it
      mints although it found one, then that was within the renew buffer. */
  lemma TurnKeepsExpiry(p: LoopPass, cfg: Config, repo: ObjectKey, life: int, c: ObjectKey, i: nat, t: Instant)
    requires i < |p.targets| && AllLongLived(p, repo, life) && cfg.renewBuffer < MAX_DURATION
    ensures var before, after := McpAt(McpsBefore(p, cfg, repo, i), c), McpAt(McpsBefore(p, cfg, repo, i + 1), c);
      var found, mints := ExpiresAfter(before, cfg.fluxNamespace, repo, t), MintsTurn(p, cfg, repo, c, i);
      && (p.now + life - SECOND >= t && (found || mints) ==> ExpiresAfter(after, cfg.fluxNamespace, repo, t))
      && (found && mints ==> t < p.now + cfg.renewBuffer)
  {
    hide Sync, ApplyAll, LongLived, Rfc3339.Parse, McpsBefore;
    NextMcps(p, cfg, repo, i);
    var mcps, u := McpsBefore(p, cfg, repo, i), p.targets[i];
    if u.cluster.Some? {
      var v := TurnOf(p, cfg, repo, i);
      McpAtCommit(mcps, u.cluster.value, v.writes, c);
      NoWrites(McpAt(mcps, c));
      if u.cluster == Some(c) && !u.pending && p.now + life - SECOND >= t
         && (ExpiresAfter(McpAt(mcps, c), cfg.fluxNamespace, repo, t) || v.minted != []) {
        var call := Call(p.now, repo, p.source, u.controlPlane, p.calls(u.controlPlane));
        VisitKeepsExpiry(McpAt(mcps, c), cfg, call, repo, life, t);
      }
    }
  }

  lemma {:induction false} TurnsKeepExpiry(p: LoopPass, cfg: Config, repo: ObjectKey, life: int, c: ObjectKey, i: nat,
                                           j: nat, t: Instant)
    requires i <= j <= |p.targets| && AllLongLived(p, repo, life) && cfg.renewBuffer < MAX_DURATION
    requires p.now + life - SECOND >= t
    requires ExpiresAfter(McpAt(McpsBefore(p, cfg, repo, i), c), cfg.fluxNamespace, repo, t)
    ensures ExpiresAfter(McpAt(McpsBefore(p, cfg, repo, j), c), cfg.fluxNamespace, repo, t)
    decreases j
  {
    hide *;
    if i == j {
    } else {
      TurnsKeepExpiry(p, cfg, repo, life, c, i, j - 1, t);
      TurnKeepsExpiry(p, cfg, repo, life, c, j - 1, t);
    }
  }

  /** A loop mints at most one token for an MCP, even if several targets share it. */
  lemma OneMintPerLoop(p: LoopPass, cfg: Config, repo: ObjectKey, life: int, c: ObjectKey, i: nat, j: nat)
    requires AllLongLived(p, repo, life) && cfg.renewBuffer < MAX_DURATION && life > cfg.renewBuffer + SECOND
    requires MintsTurn(p, cfg, repo, c, i) && MintsTurn(p, cfg, repo, c, j)
    ensures i == j
  {
    hide McpsBefore, AllLongLived, ExpiresAfter, TurnOf;
    var t := p.now + life - SECOND;
    var first, second := if i < j then i else j, if i < j then j else i;
    if first < second {
      TurnKeepsExpiry(p, cfg, repo, life, c, first, t);
      TurnsKeepExpiry(p, cfg, repo, life, c, first + 1, second, t);
      TurnKeepsExpiry(p, cfg, repo, life, c, second, t);
    }
  }

  // ---- One pass ----

  /** The pass mints a token for the MCP. */
  predicate MintsInto(w: World, repo: ObjectKey, env: Env, input: PassInput, c: ObjectKey) {
    GetsThrough(w, repo, env, input.calls) &&
    var loop := LoopOf(w, repo, env, input.now, input.calls);
    exists i :: 0 <= i < |loop.targets| && MintsTurn(loop, env.cfg, repo, c, i)
  }

  function TokensBefore(p: LoopPass, cfg: Config, repo: ObjectKey, i: nat): seq<TokenResult>
    requires i <= |p.targets|
  {
    VisitAll(p.mcps, cfg, repo, p.source, p.targets[..i], p.now, p.calls).minted
  }

  lemma LastTokens(p: LoopPass, cfg: Config, repo: ObjectKey, i: nat)
    requires i < |p.targets|
    ensures TokensBefore(p, cfg, repo, i + 1) == TokensBefore(p, cfg, repo, i) + TurnOf(p, cfg, repo, i).minted
  {
    hide VisitTarget, AfterVisit;
    assert p.targets[..i + 1][..i] == p.targets[..i];
  }

  lemma NoTokens(p: LoopPass, cfg: Config, repo: ObjectKey)
    ensures TokensBefore(p, cfg, repo, 0) == []
  {
  }

  lemma {:induction false} TokensOfTurns(p: LoopPass, cfg: Config, repo: ObjectKey, n: nat)
    requires n <= |p.targets|
    ensures TokensBefore(p, cfg, repo, n) != []
       <==> exists i :: 0 <= i < n && TurnOf(p, cfg, repo, i).minted != []
  {
    hide *;
    if n == 0 {
      NoTokens(p, cfg, repo);
    } else {
      TokensOfTurns(p, cfg, repo, n - 1);
      LastTokens(p, cfg, repo, n - 1);
    }
  }

  /** The tokens of a pass are those minted for MCPs. */
  lemma MintsIntoSome(w: World, repo: ObjectKey, env: Env, input: PassInput)
    ensures PassAt(w, repo, env, input).minted != [] <==> exists c :: MintsInto(w, repo, env, input, c)
  {
    hide ReconcilePass, GetsThrough, LoopOf, VisitAll, VisitMcp, AfterVisit, McpsBefore;
    if GetsThrough(w, repo, env, input.calls) {
      var loop := LoopOf(w, repo, env, input.now, input.calls);
      PassIsLoop(w, repo, env, input.now, input.calls);
      TokensOfTurns(loop, env.cfg, repo, |loop.targets|);
      assert loop.targets[..|loop.targets|] == loop.targets;
      if i :| 0 <= i < |loop.targets| && TurnOf(loop, env.cfg, repo, i).minted != [] {
        assert loop.targets[i].cluster.Some?;
        assert MintsTurn(loop, env.cfg, repo, loop.targets[i].cluster.value, i);
        assert MintsInto(w, repo, env, input, loop.targets[i].cluster.value);
      }
    } else if PassAt(w, repo, env, input).minted != [] {
      NotThrough(w, repo, env, input);
    }
  }

  lemma NotThrough(w: World, repo: ObjectKey, env: Env, input: PassInput)
    requires !GetsThrough(w, repo, env, input.calls)
    ensures PassAt(w, repo, env, input).minted == []
    ensures !Deleting(w, repo) ==> PassAt(w, repo, env, input).world.mcps == w.mcps
  {
    hide Targets, VisitAll, CleanAll, ClientReady, ResolveCredential;
  }

  predicate Deleting(w: World, repo: ObjectKey) {
    repo in w.onboarding.repos && w.onboarding.repos[repo].deleting
  }

  /** Every token that GitHub would give in this pass lives for at least `life` and would be written. */
  ghost predicate LongLivedCalls(input: PassInput, life: int) {
    forall cp :: var calls := input.calls.targets(cp);
      calls.sync.mint.Some? ==>
        var e := TokenOf(calls.sync.mint.value).expiresAt;
        e >= input.now + life && FourDigitYear(e) && SecretWritten(calls.sync)
  }

  lemma LoopIsLongLived(w: World, repo: ObjectKey, env: Env, input: PassInput, life: int)
    requires GetsThrough(w, repo, env, input.calls) && LongLivedCalls(input, life)
    ensures AllLongLived(LoopOf(w, repo, env, input.now, input.calls), repo, life)
  {
    hide FourDigitYear, GetsThrough;
  }

  /** Any pass but one of a deletion: an expiry beyond `t` stays, and a mint leaves one. */
  lemma PassKeepsExpiry(w: World, repo: ObjectKey, env: Env, input: PassInput, life: int, c: ObjectKey, t: Instant)
    requires !Deleting(w, repo) && LongLivedCalls(input, life) && env.cfg.renewBuffer < MAX_DURATION
    requires input.now + life - SECOND >= t
    requires ExpiresAfter(McpAt(w.mcps, c), env.cfg.fluxNamespace, repo, t) || MintsInto(w, repo, env, input, c)
    ensures ExpiresAfter(McpAt(PassAt(w, repo, env, input).world.mcps, c), env.cfg.fluxNamespace, repo, t)
  {
    hide ReconcilePass, GetsThrough, Deleting, LongLivedCalls, AllLongLived, ExpiresAfter, VisitAll, TurnOf;
    if GetsThrough(w, repo, env, input.calls) {
      var loop := LoopOf(w, repo, env, input.now, input.calls);
      var n := |loop.targets|;
      PassIsLoop(w, repo, env, input.now, input.calls);
      LoopIsLongLived(w, repo, env, input, life);
      LoopEnds(loop, env.cfg, repo);
      if MintsInto(w, repo, env, input, c) {
        var i :| 0 <= i < n && MintsTurn(loop, env.cfg, repo, c, i);
        TurnKeepsExpiry(loop, env.cfg, repo, life, c, i, t);
        TurnsKeepExpiry(loop, env.cfg, repo, life, c, i + 1, n, t);
      } else {
        TurnsKeepExpiry(loop, env.cfg, repo, life, c, 0, n, t);
      }
    } else {
      NotThrough(w, repo, env, input);
    }
  }

  lemma LoopEnds(p: LoopPass, cfg: Config, repo: ObjectKey)
    ensures McpsBefore(p, cfg, repo, 0) == p.mcps
    ensures McpsBefore(p, cfg, repo, |p.targets|) == VisitsOf(p, cfg, repo).mcps
  {
    assert p.targets[..|p.targets|] == p.targets;
  }

  /** A pass that mints for an MCP found no expiry there beyond the renew buffer. */
  lemma MintMeansDue(w: World, repo: ObjectKey, env: Env, input: PassInput, life: int, c: ObjectKey, t: Instant)
    requires LongLivedCalls(input, life) && env.cfg.renewBuffer < MAX_DURATION && input.now + life - SECOND >= t
    requires MintsInto(w, repo, env, input, c) && ExpiresAfter(McpAt(w.mcps, c), env.cfg.fluxNamespace, repo, t)
    ensures t < input.now + env.cfg.renewBuffer
  {
    hide GetsThrough, LongLivedCalls, AllLongLived, ExpiresAfter, VisitAll, TurnOf, McpsBefore;
    var loop := LoopOf(w, repo, env, input.now, input.calls);
    var i :| 0 <= i < |loop.targets| && MintsTurn(loop, env.cfg, repo, c, i);
    LoopIsLongLived(w, repo, env, input, life);
    LoopEnds(loop, env.cfg, repo);
    TurnsKeepExpiry(loop, env.cfg, repo, life, c, 0, i, t);
    TurnKeepsExpiry(loop, env.cfg, repo, life, c, i, t);
  }

  // ---- Runs ----

  /** Any passes, in the order of their times, and all of one GitRepository: once it is being deleted, a
      later one of its name is another one. Tokens live long; others leave the token Secrets alone. */
  ghost predicate MintRun(worlds: seq<World>, inputs: seq<PassInput>, repo: ObjectKey, env: Env, life: int)
    requires |worlds| == |inputs|
  {
    && TokensKept(worlds, inputs, repo, env)
    && (forall i :: 0 <= i < |inputs| ==> LongLivedCalls(inputs[i], life))
    && (forall i, j :: 0 <= i < j < |worlds| ==> inputs[i].now <= inputs[j].now)
    && (forall i, j :: 0 <= i < j < |worlds| && Deleting(worlds[i], repo) ==> !Alive(worlds[j], repo))
  }

  lemma MintRunStep(worlds: seq<World>, inputs: seq<PassInput>, repo: ObjectKey, env: Env, life: int, i: nat, j: nat)
    requires |worlds| == |inputs| && MintRun(worlds, inputs, repo, env, life) && i < j < |worlds|
    ensures LongLivedCalls(inputs[j - 1], life) && inputs[i].now <= inputs[j - 1].now
    ensures SameTokens(PassAt(worlds[j - 1], repo, env, inputs[j - 1]).world, worlds[j], repo, env)
  {
    hide LongLivedCalls, PassAt, TokensKept, SameTokens;
    TokensKeptNext(worlds, inputs, repo, env, j - 1);
  }

  lemma SameTokensExpiry(w: World, w': World, repo: ObjectKey, env: Env, c: ObjectKey, t: Instant)
    requires SameTokens(w, w', repo, env) && ExpiresAfter(McpAt(w.mcps, c), env.cfg.fluxNamespace, repo, t)
    ensures ExpiresAfter(McpAt(w'.mcps, c), env.cfg.fluxNamespace, repo, t)
  {
    hide TokenSecret, StoredExpiry;
  }

  lemma {:induction false} ExpiryLastsOverPasses(worlds: seq<World>, inputs: seq<PassInput>, repo: ObjectKey, env: Env,
                                                 life: int, c: ObjectKey, i: nat, j: nat)
    requires |worlds| == |inputs| && MintRun(worlds, inputs, repo, env, life) && env.cfg.renewBuffer < MAX_DURATION
    requires i < j < |worlds| && MintsInto(worlds[i], repo, env, inputs[i], c)
    requires forall k :: 0 <= k < j ==> !Deleting(worlds[k], repo)
    ensures ExpiresAfter(McpAt(worlds[j].mcps, c), env.cfg.fluxNamespace, repo, inputs[i].now + life - SECOND)
    decreases j
  {
    hide MintRun, ReconcilePass, LongLivedCalls, MintsInto, ExpiresAfter, SameTokens, Deleting;
    var w, input, t := worlds[j - 1], inputs[j - 1], inputs[i].now + life - SECOND;
    if j > i + 1 {
      ExpiryLastsOverPasses(worlds, inputs, repo, env, life, c, i, j - 1);
    }
    MintRunStep(worlds, inputs, repo, env, life, i, j);
    PassKeepsExpiry(w, repo, env, input, life, c, t);
    SameTokensExpiry(PassAt(w, repo, env, input).world, worlds[j], repo, env, c, t);
  }

  /** Two passes that mint for one MCP lie more than life - buffer - 1s apart. */
  lemma PassMintsFarApart(worlds: seq<World>, inputs: seq<PassInput>, repo: ObjectKey, env: Env, life: int,
                          c: ObjectKey, i: nat, j: nat)
    requires |worlds| == |inputs| && MintRun(worlds, inputs, repo, env, life) && env.cfg.renewBuffer < MAX_DURATION
    requires i < j < |worlds| && MintsInto(worlds[i], repo, env, inputs[i], c)
    requires MintsInto(worlds[j], repo, env, inputs[j], c)
    ensures inputs[j].now - inputs[i].now > life - env.cfg.renewBuffer - SECOND
  {
    hide ReconcilePass, LongLivedCalls, MintsInto, TokensKept, ExpiresAfter, Deleting;
    assert Alive(worlds[j], repo) by { MintsAlive(worlds[j], repo, env, inputs[j], c); }
    assert forall k :: 0 <= k < j ==> !Deleting(worlds[k], repo);
    ExpiryLastsOverPasses(worlds, inputs, repo, env, life, c, i, j);
    MintMeansDue(worlds[j], repo, env, inputs[j], life, c, inputs[i].now + life - SECOND);
  }

  lemma MintsAlive(w: World, repo: ObjectKey, env: Env, input: PassInput, c: ObjectKey)
    requires MintsInto(w, repo, env, input, c)
    ensures Alive(w, repo)
  {
  }

  predicate MintsBetween(worlds: seq<World>, inputs: seq<PassInput>, repo: ObjectKey, env: Env, c: ObjectKey,
                         from: Instant, to: Instant, i: nat)
    requires |worlds| == |inputs|
  {
    i < |worlds| && MintsInto(worlds[i], repo, env, inputs[i], c) && from <= inputs[i].now <= to
  }

  /** The mint rate over whole passes: in any window of length d, at most 1 + d / (life - buffer - 1s)
      passes mint for one MCP, and each of them mints a single token for it (OneMintPerLoop). */
  lemma PassMintRate(worlds: seq<World>, inputs: seq<PassInput>, repo: ObjectKey, env: Env, life: int, c: ObjectKey,
                     from: Instant, d: nat)
    requires |worlds| == |inputs| && MintRun(worlds, inputs, repo, env, life)
    requires env.cfg.renewBuffer < MAX_DURATION && life > env.cfg.renewBuffer + SECOND
    ensures |Hits((i: nat) => MintsBetween(worlds, inputs, repo, env, c, from, from + d, i), |worlds|)|
         <= 1 + d / (life - env.cfg.renewBuffer - SECOND)
  {
    hide MintRun, MintsInto;
    var hit: nat -> bool := (i: nat) => MintsBetween(worlds, inputs, repo, env, c, from, from + d, i);
    var time: nat -> int := (i: nat) => if i < |inputs| then inputs[i].now else 0;
    forall i, j | 0 <= i < j < |worlds| && hit(i) && hit(j)
      ensures time(j) - time(i) > life - env.cfg.renewBuffer - SECOND
    {
      PassMintsFarApart(worlds, inputs, repo, env, life, c, i, j);
    }
    FewInWindow(hit, time, |worlds|, from, d, life - env.cfg.renewBuffer - SECOND);
  }

  // ---- One control plane ----

  /** The pass mints a token for the control plane. */
  predicate MintsFor(w: World, repo: ObjectKey, env: Env, input: PassInput, cp: ObjectKey) {
    GetsThrough(w, repo, env, input.calls) &&
    var loop := LoopOf(w, repo, env, input.now, input.calls);
    exists i :: 0 <= i < |loop.targets|
      && loop.targets[i].controlPlane == cp && TurnOf(loop, env.cfg, repo, i).minted != []
  }

  /** With requests at the right clusters, a token for a control plane goes into its own MCP. */
  lemma MintsForOwnMcp(w: World, repo: ObjectKey, env: Env, input: PassInput, pairs: iset<Pair>, cp: ObjectKey)
    requires InUse(w, repo) && RightRequests(w, repo, env, pairs) && MintsFor(w, repo, env, input, cp)
    ensures ClusterOf(env.lib, cp).Some? && MintsInto(w, repo, env, input, ClusterOf(env.lib, cp).value)
  {
    hide GetsThrough, InUse, RightRequests, LoopOf, VisitMcp, McpsBefore, ClusterOf;
    var loop := LoopOf(w, repo, env, input.now, input.calls);
    LoopTargetsAreRight(w, repo, env, input, pairs);
    var i :| 0 <= i < |loop.targets|
          && loop.targets[i].controlPlane == cp && TurnOf(loop, env.cfg, repo, i).minted != [];
    assert loop.targets[i] in loop.targets && loop.targets[i].cluster.Some?;
    assert MintsTurn(loop, env.cfg, repo, ClusterOf(env.lib, cp).value, i);
  }

  predicate MintsForBetween(worlds: seq<World>, inputs: seq<PassInput>, repo: ObjectKey, env: Env, cp: ObjectKey,
                            from: Instant, to: Instant, i: nat)
    requires |worlds| == |inputs|
  {
    i < |worlds| && MintsFor(worlds[i], repo, env, inputs[i], cp) && from <= inputs[i].now <= to
  }

  /** So the rate holds for each control plane as well. */
  lemma ControlPlaneMintRate(worlds: seq<World>, inputs: seq<PassInput>, repo: ObjectKey, env: Env, life: int,
                             pairs: iset<Pair>, cp: ObjectKey, from: Instant, d: nat)
    requires |worlds| == |inputs| && MintRun(worlds, inputs, repo, env, life)
    requires env.cfg.renewBuffer < MAX_DURATION && life > env.cfg.renewBuffer + SECOND
    requires forall i :: 0 <= i < |worlds| && Alive(worlds[i], repo) ==>
      InUse(worlds[i], repo) && RightRequests(worlds[i], repo, env, pairs)
    ensures |Hits((i: nat) => MintsForBetween(worlds, inputs, repo, env, cp, from, from + d, i), |worlds|)|
         <= 1 + d / (life - env.cfg.renewBuffer - SECOND)
  {
    hide MintRun, MintsInto, MintsFor, InUse, RightRequests, ClusterOf, Alive;
    var hit: nat -> bool := (i: nat) => MintsForBetween(worlds, inputs, repo, env, cp, from, from + d, i);
    var time: nat -> int := (i: nat) => if i < |inputs| then inputs[i].now else 0;
    forall i, j | 0 <= i < j < |worlds| && hit(i) && hit(j)
      ensures time(j) - time(i) > life - env.cfg.renewBuffer - SECOND
    {
      MintsForAlive(worlds[i], repo, env, inputs[i], cp);
      MintsForAlive(worlds[j], repo, env, inputs[j], cp);
      MintsForOwnMcp(worlds[i], repo, env, inputs[i], pairs, cp);
      MintsForOwnMcp(worlds[j], repo, env, inputs[j], pairs, cp);
      PassMintsFarApart(worlds, inputs, repo, env, life, ClusterOf(env.lib, cp).value, i, j);
    }
    FewInWindow(hit, time, |worlds|, from, d, life - env.cfg.renewBuffer - SECOND);
  }

  lemma MintsForAlive(w: World, repo: ObjectKey, env: Env, input: PassInput, cp: ObjectKey)
    requires MintsFor(w, repo, env, input, cp)
    ensures Alive(w, repo)
  {
  }
}
