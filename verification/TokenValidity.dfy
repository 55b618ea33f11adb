/** What a loop over the targets promises about tokens: each status that shows an expiry stands for a
    token that outlives the delay asked for and the renew buffer. */
module TokenValidity {
  import opened Wrappers
  import opened GoTime
  import opened Names
  import opened McpStore
  import opened Propagate
  import opened AccessRequests
  import opened StatusList
  import opened Deadlines
  import opened GitRepositoryController
  import opened TokenRuns
  import Rfc3339

  // ---- A pass, target by target ----

  predicate ClustersDiffer(targets: seq<ResolvedTarget>) {
    forall i, j :: 0 <= i < j < |targets| && targets[i].cluster.Some? ==> targets[i].cluster != targets[j].cluster
  }

  lemma McpAtCommit(mcps: map<ObjectKey, Mcp>, c: ObjectKey, ws: seq<Write>, d: ObjectKey)
    ensures McpAt(Commit(mcps, c, ws), d) == if d == c then ApplyAll(McpAt(mcps, c), ws) else McpAt(mcps, d)
  {
  }

  lemma {:induction false} VisitAllElsewhere(mcps: map<ObjectKey, Mcp>, cfg: Config, repo: ObjectKey, source: Source,
                                             targets: seq<ResolvedTarget>, now: Instant, calls: TargetCallsFor,
                                             c: ObjectKey)
    requires forall t :: t in targets ==> t.cluster != Some(c)
    ensures McpAt(VisitAll(mcps, cfg, repo, source, targets, now, calls).mcps, c) == McpAt(mcps, c)
  {
    if targets == [] {
    } else {
      hide VisitTarget;
      var front, t := targets[..|targets| - 1], targets[|targets| - 1];
      assert targets == front + [t];
      VisitAllElsewhere(mcps, cfg, repo, source, front, now, calls, c);
    }
  }

  /** With a cluster of its own, each target is visited as if it were the only one. */
  lemma {:induction false} VisitAllParts(mcps: map<ObjectKey, Mcp>, cfg: Config, repo: ObjectKey, source: Source,
                                         targets: seq<ResolvedTarget>, now: Instant, calls: TargetCallsFor, i: nat)
    requires ClustersDiffer(targets) && i < |targets|
    ensures var t := targets[i];
      var v := VisitTarget(mcps, cfg, repo, source, t, now, calls(t.controlPlane));
      var all := VisitAll(mcps, cfg, repo, source, targets, now, calls);
      && all.results[i] == v.status
      && (t.cluster.Some? ==> McpAt(all.mcps, t.cluster.value) == ApplyAll(McpAt(mcps, t.cluster.value), v.writes))
  {
    hide VisitMcp, ApplyAll;
    var front, last := targets[..|targets| - 1], targets[|targets| - 1];
    var t := targets[i];
    var before := VisitAll(mcps, cfg, repo, source, front, now, calls);
    if i < |front| {
      assert front[i] == t;
      VisitAllParts(mcps, cfg, repo, source, front, now, calls, i);
    } else if t.cluster.Some? {
      VisitAllElsewhere(mcps, cfg, repo, source, front, now, calls, t.cluster.value);
      var v := VisitTarget(before.mcps, cfg, repo, source, last, now, calls(last.controlPlane));
      McpAtCommit(before.mcps, t.cluster.value, v.writes, t.cluster.value);
    }
  }

  /** The tokens of a loop if each target is visited as if it were the only one. */
  function MintedAlone(mcps: map<ObjectKey, Mcp>, cfg: Config, repo: ObjectKey, source: Source,
                       targets: seq<ResolvedTarget>, now: Instant, calls: TargetCallsFor): seq<TokenResult>
  {
    if targets == [] then []
    else
      var t := targets[|targets| - 1];
      MintedAlone(mcps, cfg, repo, source, targets[..|targets| - 1], now, calls)
      + VisitTarget(mcps, cfg, repo, source, t, now, calls(t.controlPlane)).minted
  }

  lemma {:induction false} VisitAllMinted(mcps: map<ObjectKey, Mcp>, cfg: Config, repo: ObjectKey, source: Source,
                                          targets: seq<ResolvedTarget>, now: Instant, calls: TargetCallsFor)
    requires ClustersDiffer(targets)
    ensures VisitAll(mcps, cfg, repo, source, targets, now, calls).minted
         == MintedAlone(mcps, cfg, repo, source, targets, now, calls)
  {
    if targets == [] {
    } else {
      hide VisitMcp, AfterVisit;
      var front, t := targets[..|targets| - 1], targets[|targets| - 1];
      VisitAllMinted(mcps, cfg, repo, source, front, now, calls);
      if t.cluster.Some? {
        VisitAllElsewhere(mcps, cfg, repo, source, front, now, calls, t.cluster.value);
      }
    }
  }

  // ---- Tokens and their true expiry ----

  /** `expiryOf` is when GitHub lets a token expire, and its answer says so. */
  ghost predicate Reported(calls: TargetCalls, expiryOf: string -> Instant) {
    calls.sync.mint.Some? ==>
      var tok := TokenOf(calls.sync.mint.value);
      tok.expiresAt == expiryOf(tok.token)
  }

  /** A token reported truthfully, that lives longer than the renew buffer. */
  ghost predicate Truthful(calls: TargetCalls, now: Instant, buffer: Duration, expiryOf: string -> Instant) {
    && Reported(calls, expiryOf)
    && (calls.sync.mint.Some? ==> TokenOf(calls.sync.mint.value).expiresAt > now + buffer)
  }

  /** It does so even when its expiry is cut to the second. */
  predicate Margin(calls: TargetCalls, now: Instant, buffer: Duration) {
    calls.sync.mint.Some? ==>
      var e := TokenOf(calls.sync.mint.value).expiresAt;
      FourDigitYear(e) && FloorToSecond(e) > now + buffer
  }

  predicate Fresh(st: Mcp, cfg: Config, repo: ObjectKey, now: Instant) {
    !NeedsRotation(st, cfg.fluxNamespace, repo, cfg.renewBuffer, now, true)
  }

  /** If the Secret shows an expiry at all, its token lives at least that long. */
  predicate SecretHonest(s: Option<Secret>, expiryOf: string -> Instant) {
    s.Some? && StoredExpiry(s.value).Some? ==>
      BEARER_TOKEN in s.value.data && StoredExpiry(s.value).value <= expiryOf(s.value.data[BEARER_TOKEN])
  }

  predicate TokenGood(s: Option<Secret>, expiryOf: string -> Instant, t: Instant) {
    s.Some? && BEARER_TOKEN in s.value.data && t < expiryOf(s.value.data[BEARER_TOKEN])
  }

  lemma WrittenSecretHonest(existing: Option<Secret>, repo: ObjectKey, tok: TokenResult, expiryOf: string -> Instant)
    requires tok.expiresAt == expiryOf(tok.token)
    ensures SecretHonest(Some(SecretFor(existing, repo, tok)), expiryOf)
    ensures forall t :: t < tok.expiresAt ==> TokenGood(Some(SecretFor(existing, repo, tok)), expiryOf, t)
  {
    hide Rfc3339.Format, Rfc3339.Parse, FourDigitYear;
    StoredExpiryOfToken(existing, repo, tok);
    FloorIsClose(tok.expiresAt);
  }

  lemma VisitKeepsHonesty(st: Mcp, cfg: Config, repo: ObjectKey, source: Source, cp: ObjectKey, now: Instant,
                          calls: TargetCalls, expiryOf: string -> Instant)
    requires SecretHonest(TokenSecret(st, cfg.fluxNamespace, repo), expiryOf) && Reported(calls, expiryOf)
    ensures var st' := ApplyAll(st, VisitMcp(st, cfg, repo, source, cp, now, calls).writes);
      SecretHonest(TokenSecret(st', cfg.fluxNamespace, repo), expiryOf)
  {
    hide Sync, SecretHonest, SecretFor, StoredExpiry;
    var ns := cfg.fluxNamespace;
    NoWrites(st);
    if NeedsRotation(st, ns, repo, cfg.renewBuffer, now, calls.rotationRead) {
      SecretAfterSync(st, ns, repo, source, calls.sync);
      if calls.sync.mint.Some? {
        WrittenSecretHonest(TokenSecret(st, ns, repo), repo, TokenOf(calls.sync.mint.value), expiryOf);
      }
    }
  }

  /** One visit that knows whether to rotate: a status with an expiry stands for a token that is good
      until then, beyond the buffer; with the margin of a second it is not due for rotation either. */
  lemma VisitIsGood(st: Mcp, cfg: Config, repo: ObjectKey, source: Source, cp: ObjectKey, now: Instant,
                    calls: TargetCalls, expiryOf: string -> Instant)
    requires SecretHonest(TokenSecret(st, cfg.fluxNamespace, repo), expiryOf)
    requires calls.rotationRead && Truthful(calls, now, cfg.renewBuffer, expiryOf)
    requires 0 <= cfg.renewBuffer < MAX_DURATION
    ensures var v := VisitMcp(st, cfg, repo, source, cp, now, calls);
      var st' := ApplyAll(st, v.writes);
      v.status.tokenExpiresAt.Some? ==>
        && v.status.tokenExpiresAt.value > now + cfg.renewBuffer
        && (forall t :: t < v.status.tokenExpiresAt.value ==>
              TokenGood(TokenSecret(st', cfg.fluxNamespace, repo), expiryOf, t))
        && (Margin(calls, now, cfg.renewBuffer) ==> Fresh(st', cfg, repo, now))
  {
    hide Rfc3339.Format, Rfc3339.Parse, FluxStep, SecretFor, FourDigitYear;
    var ns := cfg.fluxNamespace;
    if NeedsRotation(st, ns, repo, cfg.renewBuffer, now, calls.rotationRead) {
      SecretAfterSync(st, ns, repo, source, calls.sync);
      if calls.sync.mint.Some? {
        WrittenSecretHonest(TokenSecret(st, ns, repo), repo, TokenOf(calls.sync.mint.value), expiryOf);
        StoredExpiryOfToken(TokenSecret(st, ns, repo), repo, TokenOf(calls.sync.mint.value));
      }
    }
  }

  lemma DeadlineBound(e: Instant, now: Instant, buffer: Duration)
    requires 0 <= buffer < MAX_DURATION && e > now + buffer
    ensures 0 < RotationDeadline(e, now, buffer) <= e - now - buffer
  {
  }

  /** With positive deadlines throughout, the delay is the smallest of them. */
  lemma {:induction false} DeadlinesMeaning(results: Statuses, now: Instant, buffer: Duration)
    ensures forall ps :: ps in results && ps.tokenExpiresAt.Some? ==>
      RotationDeadline(ps.tokenExpiresAt.value, now, buffer) in DeadlinesOf(results, now, buffer)
    ensures forall d :: d in DeadlinesOf(results, now, buffer) ==>
      exists ps :: ps in results && ps.tokenExpiresAt.Some?
        && d == RotationDeadline(ps.tokenExpiresAt.value, now, buffer)
  {
    if results == [] {
    } else {
      hide RotationDeadline;
      DeadlinesMeaning(results[..|results| - 1], now, buffer);
      assert results == results[..|results| - 1] + [results[|results| - 1]];
    }
  }

  /** The true minimum: where every expiry lies beyond the buffer, the next pass comes no later than
      the buffer before any of them. */
  lemma DelayIsEarliest(results: Statuses, now: Instant, buffer: Duration)
    requires 0 <= buffer < MAX_DURATION
    requires forall ps :: ps in results && ps.tokenExpiresAt.Some? ==> ps.tokenExpiresAt.value > now + buffer
    ensures var ds := DeadlinesOf(results, now, buffer);
      && (ds != [] ==> DelayFor(Fold(ds)) == Min(ds))
      && forall ps :: ps in results && ps.tokenExpiresAt.Some? ==>
           now + DelayFor(Fold(ds)) + buffer <= ps.tokenExpiresAt.value
  {
    hide RotationDeadline;
    var ds := DeadlinesOf(results, now, buffer);
    DeadlinesMeaning(results, now, buffer);
    forall d | d in ds
      ensures d > 0
    {
      var ps :| ps in results && ps.tokenExpiresAt.Some? && d == RotationDeadline(ps.tokenExpiresAt.value, now, buffer);
      DeadlineBound(ps.tokenExpiresAt.value, now, buffer);
    }
    FoldOfPositives(ds);
    forall ps | ps in results && ps.tokenExpiresAt.Some?
      ensures now + DelayFor(Fold(ds)) + buffer <= ps.tokenExpiresAt.value
    {
      DeadlineBound(ps.tokenExpiresAt.value, now, buffer);
    }
  }

  // ---- A pass that gets as far as the loop ----

  /** Its MCPs and status list at the start, and its targets. */
  datatype LoopPass = LoopPass(
    mcps: map<ObjectKey, Mcp>,
    list: Statuses,
    source: Source,
    targets: seq<ResolvedTarget>,
    now: Instant,
    calls: TargetCallsFor)

  function VisitsOf(p: LoopPass, cfg: Config, repo: ObjectKey): Visits {
    VisitAll(p.mcps, cfg, repo, p.source, p.targets, p.now, p.calls)
  }

  function ListAfter(p: LoopPass, cfg: Config, repo: ObjectKey): Statuses {
    Keep(UpsertAll(p.list, VisitsOf(p, cfg, repo).results), DesiredKeys(p.targets))
  }

  function DelayAfter(p: LoopPass, cfg: Config, repo: ObjectKey): Duration {
    DelayFor(Fold(DeadlinesOf(VisitsOf(p, cfg, repo).results, p.now, cfg.renewBuffer)))
  }

  ghost predicate AllReported(calls: TargetCallsFor, expiryOf: string -> Instant) {
    forall cp :: Reported(calls(cp), expiryOf)
  }

  ghost predicate AllTruthful(calls: TargetCallsFor, now: Instant, buffer: Duration, expiryOf: string -> Instant) {
    forall cp :: calls(cp).rotationRead && Truthful(calls(cp), now, buffer, expiryOf)
  }

  ghost predicate AllMargins(calls: TargetCallsFor, now: Instant, buffer: Duration) {
    forall cp :: Margin(calls(cp), now, buffer)
  }

  ghost predicate AllHonest(mcps: map<ObjectKey, Mcp>, cfg: Config, repo: ObjectKey, expiryOf: string -> Instant) {
    forall c :: SecretHonest(TokenSecret(McpAt(mcps, c), cfg.fluxNamespace, repo), expiryOf)
  }

  /** The read that decides on rotation is answered for every target; any other call may fail.
      Targets have clusters of their own, or lifetimes have the margin. */
  ghost predicate GoodPass(p: LoopPass, cfg: Config, repo: ObjectKey, expiryOf: string -> Instant) {
    && (ClustersDiffer(p.targets) || AllMargins(p.calls, p.now, cfg.renewBuffer))
    && AllTruthful(p.calls, p.now, cfg.renewBuffer, expiryOf)
    && Unique(p.list) && Unique(VisitsOf(p, cfg, repo).results)
    && PlanesSeparate(p.list, VisitsOf(p, cfg, repo).results)
  }

  lemma DesiredKeysAreResults(p: LoopPass, cfg: Config, repo: ObjectKey)
    ensures DesiredKeys(p.targets) == Desired(VisitsOf(p, cfg, repo).results)
  {
  }

  lemma NoWrites(st: Mcp)
    ensures ApplyAll(st, []) == st
  {
  }

  /** Whatever else fails, a loop leaves no Secret that shows a later expiry than its token has. */
  lemma {:induction false} LoopKeepsHonesty(mcps: map<ObjectKey, Mcp>, cfg: Config, repo: ObjectKey, source: Source,
                                            targets: seq<ResolvedTarget>, now: Instant, calls: TargetCallsFor,
                                            expiryOf: string -> Instant)
    requires AllReported(calls, expiryOf) && AllHonest(mcps, cfg, repo, expiryOf)
    ensures AllHonest(VisitAll(mcps, cfg, repo, source, targets, now, calls).mcps, cfg, repo, expiryOf)
  {
    if targets == [] {
    } else {
      hide VisitMcp, SecretHonest, TokenSecret, Reported, ApplyAll;
      var front, t := targets[..|targets| - 1], targets[|targets| - 1];
      LoopKeepsHonesty(mcps, cfg, repo, source, front, now, calls, expiryOf);
      var before := VisitAll(mcps, cfg, repo, source, front, now, calls);
      var v := VisitTarget(before.mcps, cfg, repo, source, t, now, calls(t.controlPlane));
      if t.cluster.Some? {
        var c := t.cluster.value;
        NoWrites(McpAt(before.mcps, c));
        if !t.pending {
          assert Reported(calls(t.controlPlane), expiryOf);
          VisitKeepsHonesty(McpAt(before.mcps, c), cfg, repo, source, t.controlPlane, now, calls(t.controlPlane),
                            expiryOf);
        }
        forall d
          ensures SecretHonest(TokenSecret(McpAt(AfterVisit(before.mcps, t, v), d), cfg.fluxNamespace, repo), expiryOf)
        {
          McpAtCommit(before.mcps, c, v.writes, d);
        }
      }
    }
  }

  /** A visit leaves an MCP alone that is not its target's or whose token is fresh. */
  lemma VisitLeaves(mcps: map<ObjectKey, Mcp>, cfg: Config, repo: ObjectKey, source: Source, t: ResolvedTarget,
                    now: Instant, calls: TargetCalls, c: ObjectKey)
    requires calls.rotationRead && (t.cluster == Some(c) ==> Fresh(McpAt(mcps, c), cfg, repo, now))
    ensures McpAt(AfterVisit(mcps, t, VisitTarget(mcps, cfg, repo, source, t, now, calls)), c) == McpAt(mcps, c)
  {
    hide Sync, NeedsRotation, CurrentTokenExpiry, ApplyAll;
    if t.cluster.Some? {
      McpAtCommit(mcps, t.cluster.value, VisitTarget(mcps, cfg, repo, source, t, now, calls).writes, c);
      NoWrites(McpAt(mcps, c));
    }
  }

  /** The token that the status of target `i` stands for, once the loop is through. */
  lemma {:induction false} TargetIsGood(p: LoopPass, cfg: Config, repo: ObjectKey, expiryOf: string -> Instant, i: nat)
    requires 0 <= cfg.renewBuffer < MAX_DURATION && i < |p.targets|
    requires ClustersDiffer(p.targets) || AllMargins(p.calls, p.now, cfg.renewBuffer)
    requires AllTruthful(p.calls, p.now, cfg.renewBuffer, expiryOf) && AllHonest(p.mcps, cfg, repo, expiryOf)
    ensures var v, t := VisitsOf(p, cfg, repo), p.targets[i];
      var e := v.results[i].tokenExpiresAt;
      e.Some? ==>
        && t.cluster.Some? && e.value > p.now + cfg.renewBuffer
        && (forall u :: u < e.value ==>
              TokenGood(TokenSecret(McpAt(v.mcps, t.cluster.value), cfg.fluxNamespace, repo), expiryOf, u))
        && (AllMargins(p.calls, p.now, cfg.renewBuffer) ==> Fresh(McpAt(v.mcps, t.cluster.value), cfg, repo, p.now))
    decreases |p.targets|
  {
    hide VisitMcp, SecretHonest, TokenSecret, TokenGood, ApplyAll, Fresh, Margin, AfterVisit, Truthful;
    var n := |p.targets| - 1;
    var front, last, t := p.(targets := p.targets[..n]), p.targets[n], p.targets[i];
    var before := VisitsOf(front, cfg, repo);
    if i < n {
      assert front.targets[i] == t;
      TargetIsGood(front, cfg, repo, expiryOf, i);
      if before.results[i].tokenExpiresAt.Some? {
        VisitLeaves(before.mcps, cfg, repo, p.source, last, p.now, p.calls(last.controlPlane), t.cluster.value);
      }
    } else if t.cluster.Some? && !t.pending {
      FrontHonest(front, cfg, repo, expiryOf);
      LastIsGood(before.mcps, p, cfg, repo, expiryOf);
    }
  }

  lemma FrontHonest(p: LoopPass, cfg: Config, repo: ObjectKey, expiryOf: string -> Instant)
    requires AllTruthful(p.calls, p.now, cfg.renewBuffer, expiryOf) && AllHonest(p.mcps, cfg, repo, expiryOf)
    ensures AllHonest(VisitsOf(p, cfg, repo).mcps, cfg, repo, expiryOf)
  {
    hide SecretHonest, VisitAll;
    LoopKeepsHonesty(p.mcps, cfg, repo, p.source, p.targets, p.now, p.calls, expiryOf);
  }

  lemma LastIsGood(mcps: map<ObjectKey, Mcp>, p: LoopPass, cfg: Config, repo: ObjectKey, expiryOf: string -> Instant)
    requires 0 <= cfg.renewBuffer < MAX_DURATION && p.targets != []
    requires AllTruthful(p.calls, p.now, cfg.renewBuffer, expiryOf) && AllHonest(mcps, cfg, repo, expiryOf)
    ensures var t := p.targets[|p.targets| - 1];
      var v := VisitTarget(mcps, cfg, repo, p.source, t, p.now, p.calls(t.controlPlane));
      var after, e := AfterVisit(mcps, t, v), v.status.tokenExpiresAt;
      e.Some? ==>
        && t.cluster.Some? && e.value > p.now + cfg.renewBuffer
        && (forall u :: u < e.value ==>
              TokenGood(TokenSecret(McpAt(after, t.cluster.value), cfg.fluxNamespace, repo), expiryOf, u))
        && (AllMargins(p.calls, p.now, cfg.renewBuffer) ==> Fresh(McpAt(after, t.cluster.value), cfg, repo, p.now))
  {
    hide VisitMcp, SecretHonest, TokenSecret, TokenGood, ApplyAll, Fresh, Margin, Truthful;
    var t := p.targets[|p.targets| - 1];
    if t.cluster.Some? && !t.pending {
      var st, calls := McpAt(mcps, t.cluster.value), p.calls(t.controlPlane);
      assert calls.rotationRead && Truthful(calls, p.now, cfg.renewBuffer, expiryOf);
      VisitIsGood(st, cfg, repo, p.source, t.controlPlane, p.now, calls, expiryOf);
      McpAtCommit(mcps, t.cluster.value, VisitMcp(st, cfg, repo, p.source, t.controlPlane, p.now, calls).writes,
                  t.cluster.value);
    }
  }

  /** A target for `cp` whose Secret, as the pass leaves it, holds a token good at every instant before `until`. */
  ghost predicate BackedUntil(p: LoopPass, cfg: Config, repo: ObjectKey, expiryOf: string -> Instant, cp: ObjectKey,
                              until: Instant) {
    exists t ::
      && t in p.targets && t.controlPlane == cp && t.cluster.Some?
      && forall u :: u < until ==>
           TokenGood(TokenSecret(McpAt(VisitsOf(p, cfg, repo).mcps, t.cluster.value), cfg.fluxNamespace, repo),
                     expiryOf, u)
  }

  /** After a loop: an entry with an expiry belongs to a target whose token is good for longer than
      the delay and the buffer. */
  lemma PassIsGood(p: LoopPass, cfg: Config, repo: ObjectKey, expiryOf: string -> Instant, ps: PropagateStatus)
    requires 0 <= cfg.renewBuffer < MAX_DURATION
    requires GoodPass(p, cfg, repo, expiryOf) && AllHonest(p.mcps, cfg, repo, expiryOf)
    requires ps in ListAfter(p, cfg, repo) && ps.tokenExpiresAt.Some?
    ensures BackedUntil(p, cfg, repo, expiryOf, ps.controlPlane, p.now + DelayAfter(p, cfg, repo) + cfg.renewBuffer)
  {
    hide VisitMcp, SecretHonest, TokenSecret, TokenGood, AllTruthful, AllMargins, Fresh, Fold, DeadlinesOf, DelayFor;
    var rs := VisitsOf(p, cfg, repo).results;
    DesiredKeysAreResults(p, cfg, repo);
    UpdatedIsMap(p.list, rs);
    forall r | r in rs && r.tokenExpiresAt.Some?
      ensures r.tokenExpiresAt.value > p.now + cfg.renewBuffer
    {
      var i :| 0 <= i < |rs| && rs[i] == r;
      TargetIsGood(p, cfg, repo, expiryOf, i);
    }
    DelayIsEarliest(rs, p.now, cfg.renewBuffer);
    var i :| 0 <= i < |rs| && rs[i] == ps;
    TargetIsGood(p, cfg, repo, expiryOf, i);
    assert p.targets[i] in p.targets;
  }

  // ---- Zero deadlines ----

  function StoredIn(st: Mcp, cfg: Config, repo: ObjectKey): Option<Instant> {
    var s := TokenSecret(st, cfg.fluxNamespace, repo);
    if s.Some? then StoredExpiry(s.value) else None
  }

  /** With lifetimes beyond the buffer, a target has the deadline zero exactly if the read that decides
      on rotation fails, the one for the status succeeds, and the token in place is due. */
  lemma ZeroDeadlineExactly(st: Mcp, cfg: Config, repo: ObjectKey, source: Source, cp: ObjectKey, now: Instant,
                            calls: TargetCalls, expiryOf: string -> Instant)
    requires Truthful(calls, now, cfg.renewBuffer, expiryOf) && 0 <= cfg.renewBuffer < MAX_DURATION
    ensures var e := VisitMcp(st, cfg, repo, source, cp, now, calls).status.tokenExpiresAt;
      var stored := StoredIn(st, cfg, repo);
      e.Some? && RotationDeadline(e.value, now, cfg.renewBuffer) == 0
      <==> && !calls.rotationRead && calls.expiryRead
           && stored.Some? && RotationDeadline(stored.value, now, cfg.renewBuffer) == 0
  {
    hide Rfc3339.Parse, FluxStep, SecretStep, RotationDeadline;
    var e := VisitMcp(st, cfg, repo, source, cp, now, calls).status.tokenExpiresAt;
    if e.Some? && e.value > now + cfg.renewBuffer {
      DeadlineBound(e.value, now, cfg.renewBuffer);
    }
  }

  /** And it is forgotten: if that happens to the first of two targets and the second has a token beyond
      the buffer, both are reported as ready, and the next pass is asked for by the second one's
      deadline alone, although the first token is due. */
  lemma UnreadRotationForgotten(p: LoopPass, cfg: Config, repo: ObjectKey, a: ResolvedTarget, b: ResolvedTarget)
    requires p.targets == [a, b] && a.cluster.Some? && !a.pending && b.cluster.Some? && !b.pending
    requires 0 <= cfg.renewBuffer < MAX_DURATION && a.cluster != b.cluster
    requires !p.calls(a.controlPlane).rotationRead && p.calls(a.controlPlane).expiryRead
    requires p.calls(b.controlPlane).rotationRead && p.calls(b.controlPlane).expiryRead
    requires var e := StoredIn(McpAt(p.mcps, a.cluster.value), cfg, repo);
      e.Some? && RotationDue(e.value, p.now, cfg.renewBuffer) && RotationDeadline(e.value, p.now, cfg.renewBuffer) == 0
    requires var e := StoredIn(McpAt(p.mcps, b.cluster.value), cfg, repo);
      e.Some? && !RotationDue(e.value, p.now, cfg.renewBuffer)
    ensures var rs := VisitsOf(p, cfg, repo).results;
      && rs == [PropagateStatus(a.controlPlane, Ready, "Synced", StoredIn(McpAt(p.mcps, a.cluster.value), cfg, repo)),
                PropagateStatus(b.controlPlane, Ready, "Synced", StoredIn(McpAt(p.mcps, b.cluster.value), cfg, repo))]
      && DelayAfter(p, cfg, repo)
           == RotationDeadline(StoredIn(McpAt(p.mcps, b.cluster.value), cfg, repo).value, p.now, cfg.renewBuffer) > 0
  {
    hide Rfc3339.Parse, Sync;
    VisitAllParts(p.mcps, cfg, repo, p.source, p.targets, p.now, p.calls, 0);
    VisitAllParts(p.mcps, cfg, repo, p.source, p.targets, p.now, p.calls, 1);
    var rs := VisitsOf(p, cfg, repo).results;
    assert rs == [rs[0], rs[1]];
    TwoDeadlines(rs[0], rs[1], p.now, cfg.renewBuffer);
  }

  lemma TwoDeadlines(r: PropagateStatus, s: PropagateStatus, now: Instant, buffer: Duration)
    requires r.tokenExpiresAt.Some? && RotationDeadline(r.tokenExpiresAt.value, now, buffer) == 0
    requires s.tokenExpiresAt.Some?
    ensures Fold(DeadlinesOf([r, s], now, buffer)) == RotationDeadline(s.tokenExpiresAt.value, now, buffer)
  {
    hide RotationDeadline;
    assert [r, s][..1] == [r] && [r][..0] == [];
    var d := RotationDeadline(r.tokenExpiresAt.value, now, buffer);
    var e := RotationDeadline(s.tokenExpiresAt.value, now, buffer);
    assert DeadlinesOf([], now, buffer) == [];
    assert DeadlinesOf([r], now, buffer) == [d];
    assert DeadlinesOf([r, s], now, buffer) == [d] + [e] == [d, e];
    assert [d, e][..1] == [d] && [d][..0] == [];
    assert Fold([]) == 0 && Fold([d]) == d;
  }
}
