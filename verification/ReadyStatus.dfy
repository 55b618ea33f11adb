/** What the phase Ready says about the Flux object: as long as the token is not due, nothing. */
module ReadyStatus {
  import opened Wrappers
  import opened GoTime
  import opened Names
  import opened McpStore
  import opened Propagate
  import opened StatusList
  import opened GitRepositoryController
  import opened TokenRuns
  import opened TokenValidity
  import Rfc3339

  /** A visit that knows whether to rotate says Ready exactly if the token is not due, or if it is replaced
      and the Flux object put in place. In the second case Flux finds the new token under the wanted
      source; in the first nothing was written and nothing is known about the Flux object. */
  lemma ReadyExactly(st: Mcp, cfg: Config, repo: ObjectKey, source: Source, cp: ObjectKey, now: Instant,
                     calls: TargetCalls)
    requires calls.rotationRead
    ensures var v, ns := VisitMcp(st, cfg, repo, source, cp, now, calls), cfg.fluxNamespace;
      var st', key, notDue := ApplyAll(st, v.writes), FluxKey(ns, repo), Fresh(st, cfg, repo, now);
      && (v.status.phase == Ready <==>
            notDue || (SyncAnswered(calls.sync) && !ForeignFlux(st, ns, repo) && calls.sync.fluxWrite == Applied))
      && (notDue ==> v.writes == [] && st' == st)
      && (v.status.phase == Ready && !notDue ==>
            && OwnedFlux(st', ns, repo) && WantedSource(st'.flux[key].spec, source)
            && TokenSeenByFlux(st', key) == Some(calls.sync.mint.value.token))
  {
    hide Sync, ForeignFlux, WantedSource, TokenSeenByFlux, SyncAnswered, StoredExpiry, RotationDue;
    NoWrites(st);
    if Fresh(st, cfg, repo, now) {
    } else {
      SyncDelivers(st, cfg.fluxNamespace, repo, source, calls.sync);
    }
  }

  /** The MCP after visits one after the other. */
  function AfterVisits(st: Mcp, cfg: Config, visits: seq<Call>): Mcp {
    if visits == [] then st
    else
      var before, last := AfterVisits(st, cfg, visits[..|visits| - 1]), visits[|visits| - 1];
      ApplyAll(before, VisitOf(before, cfg, last).writes)
  }

  lemma NotDueVisit(st: Mcp, cfg: Config, v: Call)
    requires var e := StoredIn(st, cfg, v.repo); e.Some? && !RotationDue(e.value, v.now, cfg.renewBuffer)
    ensures VisitOf(st, cfg, v).writes == [] && VisitOf(st, cfg, v).status.phase == Ready
  {
    hide Sync, StoredExpiry, RotationDue;
  }

  /** Until the expiry in the Secret is due, no number of visits writes anything, whatever source each of
      them wants and whatever its calls: edits of the spec reach an MCP only when the token is rotated. */
  lemma {:induction false} NoWritesUntilDue(st: Mcp, cfg: Config, repo: ObjectKey, visits: seq<Call>)
    requires StoredIn(st, cfg, repo).Some?
    requires forall v :: v in visits ==>
      v.repo == repo && !RotationDue(StoredIn(st, cfg, repo).value, v.now, cfg.renewBuffer)
    ensures AfterVisits(st, cfg, visits) == st
    ensures forall v :: v in visits ==> VisitOf(st, cfg, v).writes == [] && VisitOf(st, cfg, v).status.phase == Ready
  {
    if visits == [] {
    } else {
      hide VisitOf, StoredIn, RotationDue;
      var front, last := visits[..|visits| - 1], visits[|visits| - 1];
      assert visits == front + [last] && last in visits;
      NoWritesUntilDue(st, cfg, repo, front);
      NotDueVisit(st, cfg, last);
      NoWrites(st);
    }
  }

  /** The worst case: a visit replaces the token but cannot write the Flux object that is not there yet, and
      reports a failure. Until the new expiry, cut to the second, is due, every later visit reports Ready and
      writes nothing, while there is no Flux object at all. */
  lemma FluxFailureHidden(st: Mcp, cfg: Config, first: Call, visits: seq<Call>)
    requires !Fresh(st, cfg, first.repo, first.now) && first.calls.rotationRead
    requires first.calls.sync.mint.Some? && first.calls.sync.secretRead && first.calls.sync.secretWrite == Applied
    requires !first.calls.sync.fluxRead || first.calls.sync.fluxWrite == Lost
    requires FluxKey(cfg.fluxNamespace, first.repo) !in st.flux
    requires FourDigitYear(TokenOf(first.calls.sync.mint.value).expiresAt)
    requires forall v :: v in visits ==>
      && v.repo == first.repo
      && !RotationDue(FloorToSecond(TokenOf(first.calls.sync.mint.value).expiresAt), v.now, cfg.renewBuffer)
    ensures VisitOf(st, cfg, first).status.phase == TokenFailed
    ensures var st' := ApplyAll(st, VisitOf(st, cfg, first).writes);
      && FluxKey(cfg.fluxNamespace, first.repo) !in st'.flux
      && AfterVisits(st', cfg, visits) == st'
      && forall v :: v in visits ==> VisitOf(st', cfg, v).writes == [] && VisitOf(st', cfg, v).status.phase == Ready
  {
    hide Rfc3339.Format, Rfc3339.Parse, FourDigitYear, SecretFor, RotationDue;
    var ns, repo, calls := cfg.fluxNamespace, first.repo, first.calls.sync;
    var tok := TokenOf(calls.mint.value);
    FluxNotWritten(st, ns, repo, first.source, calls);
    SecretAfterSync(st, ns, repo, first.source, calls);
    StoredExpiryOfToken(TokenSecret(st, ns, repo), repo, tok);
    NoWritesUntilDue(ApplyAll(st, VisitOf(st, cfg, first).writes), cfg, repo, visits);
  }

  lemma FluxNotWritten(st: Mcp, ns: string, repo: ObjectKey, source: Source, calls: SyncCalls)
    requires calls.mint.Some? && calls.secretRead && calls.secretWrite == Applied
    requires !calls.fluxRead || calls.fluxWrite == Lost
    requires FluxKey(ns, repo) !in st.flux
    ensures Sync(st, ns, repo, source, calls).result.Err?
    ensures ApplyAll(st, Sync(st, ns, repo, source, calls).writes).flux == st.flux
  {
    hide SecretFor;
    if SyncAnswered(calls) {
      SyncedState(st, ns, repo, source, calls);
      NoWrites(st);
    } else {
      ApplySecretOnly(st, ns, repo, source, calls);
    }
  }
}
