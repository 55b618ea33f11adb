/**
 The token Secret over whole runs: what a synchronisation delivers, and how often a token is minted.
 */
module TokenRuns {
  import opened Wrappers
  import opened GoTime
  import opened Names
  import opened McpStore
  import opened Propagate
  import opened PropagateRuns
  import opened GitRepositoryController
  import opened RateBound
  import Rfc3339

  // ---- What a visit does to the token Secret ----

  function TokenSecret(st: Mcp, ns: string, repo: ObjectKey): Option<Secret> {
    Lookup(st.secrets, SecretKey(ns, repo))
  }

  predicate SecretWritten(calls: SyncCalls) {
    calls.mint.Some? && calls.secretRead && calls.secretWrite != Lost
  }

  lemma SecretAfterSync(st: Mcp, ns: string, repo: ObjectKey, source: Source, calls: SyncCalls)
    ensures TokenSecret(ApplyAll(st, Sync(st, ns, repo, source, calls).writes), ns, repo)
         == if SecretWritten(calls) then Some(SecretFor(TokenSecret(st, ns, repo), repo, TokenOf(calls.mint.value)))
            else TokenSecret(st, ns, repo)
  {
    hide FluxStep, SecretFor, Rfc3339.Format;
    if calls.mint.Some? {
      var s := SecretStep(st, ns, repo, TokenOf(calls.mint.value), calls);
      if s.writes != [] {
        ApplyOne(st, s.writes[0]);
      }
      if s.result.None? {
        var f := FluxStep(ApplyAll(st, s.writes), ns, repo, source, calls);
        FluxShape(ApplyAll(st, s.writes), ns, repo, source, calls);
        ApplyAllConcat(st, s.writes, f.writes);
        UntouchedSecret(ApplyAll(st, s.writes), f.writes, SecretKey(ns, repo));
      }
    }
  }

  /** GitHub's expiries are dates of four-digit years. */
  predicate FourDigitYear(t: Instant) {
    0 <= Rfc3339.DateOf(t).year <= 9999
  }

  lemma StoredExpiryOfToken(existing: Option<Secret>, repo: ObjectKey, tok: TokenResult)
    ensures StoredExpiry(SecretFor(existing, repo, tok))
         == if FourDigitYear(tok.expiresAt) then Some(FloorToSecond(tok.expiresAt)) else None
  {
    hide Rfc3339.Format, Rfc3339.Parse;
    Rfc3339.RoundTrip(tok.expiresAt);
  }

  // ---- What a successful synchronisation delivers ----

  /** The token that Flux finds when it follows the Secret reference of its GitRepository. */
  function TokenSeenByFlux(st: Mcp, key: ObjectKey): Option<string> {
    if key !in st.flux || st.flux[key].spec.secretRef.None? then None
    else
      var secret := Lookup(st.secrets, ObjectKey(key.namespace, st.flux[key].spec.secretRef.value));
      if secret.Some? && BEARER_TOKEN in secret.value.data then Some(secret.value.data[BEARER_TOKEN]) else None
  }

  predicate SyncAnswered(calls: SyncCalls) {
    calls.mint.Some? && calls.secretRead && calls.secretWrite == Applied && calls.fluxRead
  }

  /** With its calls answered a synchronisation comes down to the new Secret and the Flux step. */
  lemma SyncedState(st: Mcp, ns: string, repo: ObjectKey, source: Source, calls: SyncCalls)
    requires SyncAnswered(calls)
    ensures var s, f := Sync(st, ns, repo, source, calls), FluxStep(st, ns, repo, source, calls);
      var st' := ApplyAll(st, s.writes);
      && st'.secrets
         == st.secrets[SecretKey(ns, repo) := SecretFor(TokenSecret(st, ns, repo), repo, TokenOf(calls.mint.value))]
      && st'.flux == ApplyAll(st, f.writes).flux
      && (s.result.Ok? <==> f.result.Ok?)
      && (f.result.Ok? ==> s.result.value == Synced(TokenOf(calls.mint.value).expiresAt, f.result.value))
  {
    hide SecretFor;
    var first := SecretStep(st, ns, repo, TokenOf(calls.mint.value), calls).writes;
    ApplyOne(st, first[0]);
    var f := FluxStep(st, ns, repo, source, calls);
    assert f == FluxStep(ApplyAll(st, first), ns, repo, source, calls);
    if f.writes == [] {
      assert first + [] == first;
    } else {
      ApplyTwo(st, first[0], f.writes[0]);
      ApplyOne(st, f.writes[0]);
      assert first + f.writes == [first[0], f.writes[0]];
    }
  }

  predicate ForeignFlux(st: Mcp, ns: string, repo: ObjectKey) {
    FluxKey(ns, repo) in st.flux && !OwnedFlux(st, ns, repo)
  }

  lemma FluxDelivers(st: Mcp, ns: string, repo: ObjectKey, source: Source, calls: SyncCalls)
    requires calls.fluxRead
    ensures var f, key, foreign := FluxStep(st, ns, repo, source, calls), FluxKey(ns, repo), ForeignFlux(st, ns, repo);
      var st' := ApplyAll(st, f.writes);
      && (f.result.Ok? <==> foreign || calls.fluxWrite == Applied)
      && (f.result.Ok? ==> f.result.value == foreign)
      && (foreign ==> st'.flux == st.flux)
      && (f.result.Ok? && !foreign ==>
            && OwnedFlux(st', ns, repo) && st'.flux[key].spec.secretRef == Some(SecretName(repo))
            && WantedSource(st'.flux[key].spec, source))
      && (forall k :: k != key ==> Lookup(st'.flux, k) == Lookup(st.flux, k))
  {
    var ws := FluxStep(st, ns, repo, source, calls).writes;
    if ws != [] {
      ApplyOne(st, ws[0]);
    }
  }

  /** The URL is the wanted one, and so is the reference, which is left away if all its parts are empty. */
  predicate WantedSource(spec: FluxSpec, source: Source) {
    && spec.url == source.url
    && (spec.reference == None <==> source.ref == GitRef("", "", ""))
    && (spec.reference.Some? ==> spec.reference.value == source.ref)
  }

  /** A synchronisation reports no error exactly if every call it makes succeeds, and a conflict
      exactly if the Flux object there is someone else's. Then Flux finds the new token under the
      wanted URL, or, in a conflict, the Flux objects are as before; other objects never change. */
  lemma SyncDelivers(st: Mcp, ns: string, repo: ObjectKey, source: Source, calls: SyncCalls)
    ensures var s, key, foreign := Sync(st, ns, repo, source, calls), FluxKey(ns, repo), ForeignFlux(st, ns, repo);
      var st' := ApplyAll(st, s.writes);
      && (s.result.Ok? <==> SyncAnswered(calls) && (foreign || calls.fluxWrite == Applied))
      && (s.result.Ok? ==>
            && s.result.value == Synced(ExpiryIn(calls.mint.value), foreign)
            && (foreign ==> st'.flux == st.flux)
            && (!foreign ==>
                  && OwnedFlux(st', ns, repo) && WantedSource(st'.flux[key].spec, source)
                  && TokenSeenByFlux(st', key) == Some(calls.mint.value.token)))
      && (forall k :: k != key ==> Lookup(st'.flux, k) == Lookup(st.flux, k))
      && (forall k :: k != SecretKey(ns, repo) ==> Lookup(st'.secrets, k) == Lookup(st.secrets, k))
  {
    hide Rfc3339.Format, FluxStep, ForeignFlux, WantedSource, Owns;
    if SyncAnswered(calls) {
      hide Sync;
      SyncedState(st, ns, repo, source, calls);
      FluxDelivers(st, ns, repo, source, calls);
    } else if calls.mint.Some? && calls.secretRead && calls.secretWrite != Lost {
      ApplySecretOnly(st, ns, repo, source, calls);
    }
  }

  lemma ApplySecretOnly(st: Mcp, ns: string, repo: ObjectKey, source: Source, calls: SyncCalls)
    requires calls.mint.Some? && calls.secretRead && calls.secretWrite != Lost && !SyncAnswered(calls)
    ensures var st' := ApplyAll(st, Sync(st, ns, repo, source, calls).writes);
      && Sync(st, ns, repo, source, calls).result.Err? && st'.flux == st.flux
      && (forall k :: k != SecretKey(ns, repo) ==> Lookup(st'.secrets, k) == Lookup(st.secrets, k))
  {
  }

  /** The two objects as they are written, field by field: the token under the key that Flux looks at, who
      manages them, when the token expires, and what Flux is to fetch. Other annotations of an existing
      object stay. */
  lemma WrittenObjects(st: Mcp, ns: string, repo: ObjectKey, source: Source, calls: SyncCalls)
    requires SyncAnswered(calls) && calls.fluxWrite == Applied
    ensures var st' := ApplyAll(st, Sync(st, ns, repo, source, calls).writes);
      var secret, flux := ObjectKey(ns, repo.name + "-token"), ObjectKey(ns, repo.name);
      var managedBy, expiry, owner :=
        "openmcp.cloud/managed-by", "openmcp.cloud/token-expires-at", repo.namespace + "/" + repo.name;
      && secret in st'.secrets
      && st'.secrets[secret].data == map["bearerToken" := calls.mint.value.token]
      && st'.secrets[secret].kind == (if secret in st.secrets then st.secrets[secret].kind else "Opaque")
      && st'.secrets[secret].annotations
         == (if secret in st.secrets then st.secrets[secret].annotations else map[])
            [managedBy := owner][expiry := Rfc3339.Format(ExpiryIn(calls.mint.value))]
      && (OwnedFlux(st, ns, repo) || flux !in st.flux ==>
            && flux in st'.flux
            && st'.flux[flux].annotations
               == (if flux in st.flux then st.flux[flux].annotations else map[managedBy := owner])
            && st'.flux[flux].spec
               == FluxSpec(source.url, 60_000_000_000, Some(repo.name + "-token"),
                           if source.ref.branch == "" && source.ref.tag == "" && source.ref.commit == "" then None
                           else Some(source.ref)))
  {
    hide Rfc3339.Format, Sync, Owns;
    SyncedState(st, ns, repo, source, calls);
    var ws := FluxStep(st, ns, repo, source, calls).writes;
    if ws != [] {
      ApplyOne(st, ws[0]);
    }
  }

  /** Deciding by the written expiry is never later than by GitHub's own, and less than a second early. */
  lemma StoredDecisionIsClose(existing: Option<Secret>, repo: ObjectKey, tok: TokenResult, now: Instant,
                              buffer: Duration)
    requires FourDigitYear(tok.expiresAt)
    ensures var stored := StoredExpiry(SecretFor(existing, repo, tok));
      && stored.Some?
      && (RotationDue(tok.expiresAt, now, buffer) ==> RotationDue(stored.value, now, buffer))
      && (RotationDue(stored.value, now, buffer) ==> RotationDue(tok.expiresAt, now + SECOND - 1, buffer))
  {
    hide FourDigitYear, SecretFor;
    StoredExpiryOfToken(existing, repo, tok);
    FloorIsClose(tok.expiresAt);
  }

  // ---- Mint rate ----

  /** One visit to the MCP. */
  datatype Call = Call(now: Instant, repo: ObjectKey, source: Source, cp: ObjectKey, calls: TargetCalls)

  function VisitOf(st: Mcp, cfg: Config, c: Call): Visit {
    VisitMcp(st, cfg, c.repo, c.source, c.cp, c.now, c.calls)
  }

  predicate MintsAt(st: Mcp, cfg: Config, c: Call) {
    VisitOf(st, cfg, c).minted != []
  }

  /** Visits of any GitRepositories of one name to one MCP: `states[i]` is the MCP when visit i
      begins. Between visits anything may happen to it except to the token Secret. */
  ghost predicate Run(states: seq<Mcp>, visits: seq<Call>, cfg: Config, repo: ObjectKey)
    requires |states| == |visits|
  {
    && (forall i :: 0 <= i < |visits| ==> visits[i].repo.name == repo.name)
    && (forall i, j :: 0 <= i < j < |visits| ==> visits[i].now <= visits[j].now)
    && (forall i, j :: 0 <= i < |visits| && j == i + 1 && j < |visits| ==>
          TokenSecret(states[j], cfg.fluxNamespace, repo)
          == TokenSecret(ApplyAll(states[i], VisitOf(states[i], cfg, visits[i]).writes), cfg.fluxNamespace, repo))
  }

  /** A minted token lives for at least `life` and is written to its Secret. */
  predicate LongLived(c: Call, life: int) {
    c.calls.sync.mint.Some? ==>
      var e := TokenOf(c.calls.sync.mint.value).expiresAt;
      e >= c.now + life && FourDigitYear(e) && SecretWritten(c.calls.sync)
  }

  predicate ExpiresAfter(st: Mcp, ns: string, repo: ObjectKey, t: Instant) {
    var s := TokenSecret(st, ns, repo);
    s.Some? && StoredExpiry(s.value).Some? && StoredExpiry(s.value).value > t
  }

  /** A visit leaves a Secret whose expiry lies beyond `t` if it found one, or if it mints. */
  lemma VisitKeepsExpiry(st: Mcp, cfg: Config, c: Call, repo: ObjectKey, life: int, t: Instant)
    requires c.repo.name == repo.name && LongLived(c, life) && c.now + life - SECOND >= t
    requires ExpiresAfter(st, cfg.fluxNamespace, repo, t) || MintsAt(st, cfg, c)
    ensures ExpiresAfter(ApplyAll(st, VisitOf(st, cfg, c).writes), cfg.fluxNamespace, repo, t)
  {
    hide Sync, Rfc3339.Format, Rfc3339.Parse, SecretFor, FourDigitYear;
    var ns := cfg.fluxNamespace;
    if NeedsRotation(st, ns, c.repo, cfg.renewBuffer, c.now, c.calls.rotationRead) {
      SecretAfterSync(st, ns, c.repo, c.source, c.calls.sync);
      assert TokenSecret(st, ns, repo) == TokenSecret(st, ns, c.repo);
      if c.calls.sync.mint.Some? {
        var tok := TokenOf(c.calls.sync.mint.value);
        StoredExpiryOfToken(TokenSecret(st, ns, c.repo), c.repo, tok);
        FloorIsClose(tok.expiresAt);
      }
    }
  }

  lemma RunStep(states: seq<Mcp>, visits: seq<Call>, cfg: Config, repo: ObjectKey, i: nat, j: nat)
    requires |states| == |visits| && Run(states, visits, cfg, repo) && i < j < |visits|
    ensures visits[j - 1].repo.name == repo.name && visits[i].now <= visits[j - 1].now
    ensures TokenSecret(states[j], cfg.fluxNamespace, repo)
         == TokenSecret(ApplyAll(states[j - 1], VisitOf(states[j - 1], cfg, visits[j - 1]).writes),
                        cfg.fluxNamespace, repo)
  {
    hide VisitOf, TokenSecret, ApplyAll;
  }

  lemma {:induction false} ExpiryLasts(states: seq<Mcp>, visits: seq<Call>, cfg: Config, repo: ObjectKey, life: int,
                                       i: nat, j: nat)
    requires |states| == |visits| && Run(states, visits, cfg, repo) && forall v :: v in visits ==> LongLived(v, life)
    requires i < j < |visits| && MintsAt(states[i], cfg, visits[i])
    ensures ExpiresAfter(states[j], cfg.fluxNamespace, repo, visits[i].now + life - SECOND)
    decreases j
  {
    hide Run, VisitOf, TokenSecret, LongLived, MintsAt, ApplyAll;
    var t := visits[i].now + life - SECOND;
    if j > i + 1 {
      ExpiryLasts(states, visits, cfg, repo, life, i, j - 1);
    }
    RunStep(states, visits, cfg, repo, i, j);
    VisitKeepsExpiry(states[j - 1], cfg, visits[j - 1], repo, life, t);
  }

  /** Two mints into one Secret lie more than life - buffer - 1s apart, however often visits are
      triggered and whatever becomes of the Flux object. */
  lemma MintsFarApart(states: seq<Mcp>, visits: seq<Call>, cfg: Config, repo: ObjectKey, life: int, i: nat, j: nat)
    requires |states| == |visits| && Run(states, visits, cfg, repo) && forall v :: v in visits ==> LongLived(v, life)
    requires cfg.renewBuffer < MAX_DURATION
    requires i < j < |visits| && MintsAt(states[i], cfg, visits[i]) && MintsAt(states[j], cfg, visits[j])
    ensures visits[j].now - visits[i].now > life - cfg.renewBuffer - SECOND
  {
    hide Sync, Rfc3339.Parse, Run, LongLived;
    ExpiryLasts(states, visits, cfg, repo, life, i, j);
    assert visits[j].repo.name == repo.name by { RunNames(states, visits, cfg, repo, j); }
    assert TokenSecret(states[j], cfg.fluxNamespace, repo) == TokenSecret(states[j], cfg.fluxNamespace, visits[j].repo);
  }

  lemma RunNames(states: seq<Mcp>, visits: seq<Call>, cfg: Config, repo: ObjectKey, j: nat)
    requires |states| == |visits| && Run(states, visits, cfg, repo) && j < |visits|
    ensures visits[j].repo.name == repo.name
  {
  }

  predicate MintsBetween(states: seq<Mcp>, visits: seq<Call>, cfg: Config, from: Instant, to: Instant, i: nat)
    requires |visits| == |states|
  {
    i < |visits| && MintsAt(states[i], cfg, visits[i]) && from <= visits[i].now <= to
  }

  /** The mint-rate bound: a window of length d sees at most 1 + d / (life - buffer - 1s) mints. */
  lemma MintRate(states: seq<Mcp>, visits: seq<Call>, cfg: Config, repo: ObjectKey, life: int, from: Instant, d: nat)
    requires |states| == |visits| && Run(states, visits, cfg, repo) && forall v :: v in visits ==> LongLived(v, life)
    requires cfg.renewBuffer < MAX_DURATION && life > cfg.renewBuffer + SECOND
    ensures |Hits((i: nat) => MintsBetween(states, visits, cfg, from, from + d, i), |visits|)|
         <= 1 + d / (life - cfg.renewBuffer - SECOND)
  {
    hide LongLived, Run, VisitOf;
    var hit: nat -> bool := (i: nat) => MintsBetween(states, visits, cfg, from, from + d, i);
    var time: nat -> int := (i: nat) => if i < |visits| then visits[i].now else 0;
    forall i, j | 0 <= i < j < |visits| && hit(i) && hit(j)
      ensures time(j) - time(i) > life - cfg.renewBuffer - SECOND
    {
      MintsFarApart(states, visits, cfg, repo, life, i, j);
    }
    FewInWindow(hit, time, |visits|, from, d, life - cfg.renewBuffer - SECOND);
  }
}
