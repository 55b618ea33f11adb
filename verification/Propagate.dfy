/**
 internal/propagate: put a freshly minted token and the Flux GitRepository into one MCP, take
 them out again, and decide whether the token in place has to be rotated.

 Each operation is given twice: as a function from the MCP's contents to the writes it makes
 there, which the theorems are about, and as the method that makes its API calls one by one.
 */
module Propagate {
  import opened Wrappers
  import opened GoTime
  import opened Names
  import opened McpStore
  import Rfc3339

  const MANAGED_BY := "openmcp.cloud/managed-by"
  const TOKEN_EXPIRES_AT := "openmcp.cloud/token-expires-at"
  const BEARER_TOKEN := "bearerToken"
  const OPAQUE := "Opaque"
  const FLUX_INTERVAL: Duration := MINUTE

  /** The part of a GitRepository's spec that reaches the MCP. */
  datatype Source = Source(url: string, ref: GitRef)

  // ---- The token minter ----

  /** GitHub's answer; the expiry may be missing. */
  datatype MintResponse = MintResponse(token: string, expiresAt: Option<Instant>)

  datatype TokenResult = TokenResult(token: string, expiresAt: Instant)

  /** A missing expiry becomes Go's zero time. */
  function TokenOf(r: MintResponse): TokenResult {
    TokenResult(r.token, r.expiresAt.GetOr(0))
  }

  datatype Mint = Mint(installationID: int, token: TokenResult)

  /** The expiry GitHub reports, or Go's zero time. */
  function ExpiryIn(r: MintResponse): Instant {
    match r.expiresAt
    case Some(e) => e
    case None => 0
  }

  class GitHub {
    var minted: seq<Mint>

    constructor ()
      ensures minted == []
    {
      minted := [];
    }

    method MintScopedToken(installationID: int, response: Option<MintResponse>) returns (r: Option<TokenResult>)
      modifies this
      ensures response.None? ==> r == None && minted == old(minted)
      ensures response.Some? ==> r == Some(TokenResult(response.value.token, ExpiryIn(response.value)))
      ensures response.Some? ==> minted == old(minted) + [Mint(installationID, r.value)]
    {
      if response.None? {
        return None;
      }
      r := Some(TokenOf(response.value));
      minted := minted + [Mint(installationID, r.value)];
    }
  }

  // ---- Objects of one GitRepository in an MCP ----

  function FluxKey(ns: string, repo: ObjectKey): ObjectKey {
    ObjectKey(ns, repo.name)
  }

  function SecretKey(ns: string, repo: ObjectKey): ObjectKey {
    ObjectKey(ns, SecretName(repo))
  }

  /** Reading a missing key of a Go map gives "". */
  function Annotation(annotations: map<string, string>, key: string): string {
    if key in annotations then annotations[key] else ""
  }

  predicate Owns(repo: ObjectKey, annotations: map<string, string>) {
    Annotation(annotations, MANAGED_BY) == SlashKey(repo)
  }

  function FluxSpecFor(source: Source, secretName: string): FluxSpec {
    FluxSpec(source.url, FLUX_INTERVAL, Some(secretName),
             if source.ref != GitRef("", "", "") then Some(source.ref) else None)
  }

  /** The Secret as it will be: a Secret of that name is taken over with its other annotations
      and its type, whoever made it. */
  function SecretFor(existing: Option<Secret>, repo: ObjectKey, tok: TokenResult): Secret {
    var before := if existing.Some? then existing.value.annotations else map[];
    Secret(before[MANAGED_BY := SlashKey(repo)][TOKEN_EXPIRES_AT := Rfc3339.Format(tok.expiresAt)],
           map[BEARER_TOKEN := tok.token],
           if existing.Some? then existing.value.kind else OPAQUE)
  }

  function Lookup<V>(objects: map<ObjectKey, V>, key: ObjectKey): Option<V> {
    if key in objects then Some(objects[key]) else None
  }

  // ---- Expiry of the token in place ----

  function StoredExpiry(secret: Secret): Option<Instant> {
    if TOKEN_EXPIRES_AT in secret.annotations then Rfc3339.Parse(secret.annotations[TOKEN_EXPIRES_AT]) else None
  }

  function CurrentTokenExpiry(st: Mcp, ns: string, repo: ObjectKey, answered: bool): Option<Instant> {
    match Read(st.secrets, SecretKey(ns, repo), answered)
    case Ok(secret) => StoredExpiry(secret)
    case Err(_) => None
  }

  /** A failed read counts as "no rotation needed", an absent Secret does not. */
  predicate NeedsRotation(st: Mcp, ns: string, repo: ObjectKey, buffer: Duration, now: Instant, answered: bool) {
    match Read(st.secrets, SecretKey(ns, repo), answered)
    case Err(NotFound) => true
    case Err(ReadFailed) => false
    case Ok(secret) =>
      match StoredExpiry(secret)
      case None => true
      case Some(e) => RotationDue(e, now, buffer)
  }

  // ---- Reconcile ----

  datatype SyncError = MintFailed | SecretReadFailed | SecretWriteFailed | FluxReadFailed | FluxWriteFailed

  /** How the API calls of one Reconcile turn out. */
  datatype SyncCalls = SyncCalls(
    mint: Option<MintResponse>,
    secretRead: bool,
    secretWrite: WriteOutcome,
    fluxRead: bool,
    fluxWrite: WriteOutcome)

  datatype Synced = Synced(tokenExpiresAt: Instant, conflict: bool)

  /** Writes made in the MCP, and what the caller is told. */
  datatype Outcome<T> = Outcome(writes: seq<Write>, result: T)

  function SecretStep(st: Mcp, ns: string, repo: ObjectKey, tok: TokenResult, calls: SyncCalls)
    : Outcome<Option<SyncError>>
  {
    var key := SecretKey(ns, repo);
    if !calls.secretRead then Outcome([], Some(SecretReadFailed))
    else Outcome(Effect(PutSecret(key, SecretFor(Lookup(st.secrets, key), repo, tok)), calls.secretWrite),
                 if calls.secretWrite == Applied then None else Some(SecretWriteFailed))
  }

  /** Only the Flux object is guarded by its owner: a foreign one is a conflict. */
  function FluxStep(st: Mcp, ns: string, repo: ObjectKey, source: Source, calls: SyncCalls)
    : Outcome<Result<bool, SyncError>>
  {
    var key := FluxKey(ns, repo);
    var spec := FluxSpecFor(source, SecretName(repo));
    if !calls.fluxRead then Outcome([], Err(FluxReadFailed))
    else if key in st.flux && !Owns(repo, st.flux[key].annotations) then Outcome([], Ok(true))
    else
      var flux := if key in st.flux then st.flux[key].(spec := spec)
                  else FluxRepository(map[MANAGED_BY := SlashKey(repo)], spec);
      Outcome(Effect(PutFlux(key, flux), calls.fluxWrite),
              if calls.fluxWrite == Applied then Ok(false) else Err(FluxWriteFailed))
  }

  function Sync(st: Mcp, ns: string, repo: ObjectKey, source: Source, calls: SyncCalls)
    : Outcome<Result<Synced, SyncError>>
  {
    if calls.mint.None? then Outcome([], Err(MintFailed))
    else
      var tok := TokenOf(calls.mint.value);
      var s := SecretStep(st, ns, repo, tok, calls);
      if s.result.Some? then Outcome(s.writes, Err(s.result.value))
      else
        var f := FluxStep(ApplyAll(st, s.writes), ns, repo, source, calls);
        Outcome(s.writes + f.writes,
                if f.result.Err? then Err(f.result.error) else Ok(Synced(tok.expiresAt, f.result.value)))
  }

  method SyncSecret(fleet: Fleet, c: ObjectKey, ns: string, repo: ObjectKey, tok: TokenResult, calls: SyncCalls)
    returns (err: Option<SyncError>)
    modifies fleet
    ensures var s := SecretStep(old(fleet.At(c)), ns, repo, tok, calls);
      && err == s.result
      && fleet.mcps == Commit(old(fleet.mcps), c, s.writes)
      && fleet.log == old(fleet.log) + Tag(c, s.writes)
  {
    var key := SecretKey(ns, repo);
    var existing := fleet.GetSecret(c, key, calls.secretRead);
    var ok: bool;
    match existing {
      case Err(NotFound) =>
        ok := fleet.Create(c, PutSecret(key, SecretFor(None, repo, tok)), calls.secretWrite);
      case Err(ReadFailed) =>
        return Some(SecretReadFailed);
      case Ok(secret) =>
        ok := fleet.Update(c, PutSecret(key, SecretFor(Some(secret), repo, tok)), calls.secretWrite);
    }
    err := if ok then None else Some(SecretWriteFailed);
  }

  method SyncFluxGitRepository(fleet: Fleet, c: ObjectKey, ns: string, repo: ObjectKey, source: Source,
                               calls: SyncCalls)
    returns (r: Result<bool, SyncError>)
    modifies fleet
    ensures var f := FluxStep(old(fleet.At(c)), ns, repo, source, calls);
      && r == f.result
      && fleet.mcps == Commit(old(fleet.mcps), c, f.writes)
      && fleet.log == old(fleet.log) + Tag(c, f.writes)
  {
    var key := FluxKey(ns, repo);
    var spec := FluxSpecFor(source, SecretName(repo));
    var existing := fleet.GetFlux(c, key, calls.fluxRead);
    var ok: bool;
    match existing {
      case Ok(flux) =>
        if !Owns(repo, flux.annotations) {
          return Ok(true);
        }
        ok := fleet.Update(c, PutFlux(key, flux.(spec := spec)), calls.fluxWrite);
      case Err(ReadFailed) =>
        return Err(FluxReadFailed);
      case Err(NotFound) =>
        var flux := FluxRepository(map[MANAGED_BY := SlashKey(repo)], spec);
        ok := fleet.Create(c, PutFlux(key, flux), calls.fluxWrite);
    }
    r := if ok then Ok(false) else Err(FluxWriteFailed);
  }

  method Reconcile(fleet: Fleet, github: GitHub, c: ObjectKey, ns: string, repo: ObjectKey, source: Source,
                   installationID: int, calls: SyncCalls)
    returns (r: Result<Synced, SyncError>)
    modifies fleet, github
    ensures var s := Sync(old(fleet.At(c)), ns, repo, source, calls);
      && r == s.result
      && fleet.mcps == Commit(old(fleet.mcps), c, s.writes)
      && fleet.log == old(fleet.log) + Tag(c, s.writes)
    ensures calls.mint.None? ==> github.minted == old(github.minted)
    ensures calls.mint.Some? ==>
      var token := TokenResult(calls.mint.value.token, ExpiryIn(calls.mint.value));
      github.minted == old(github.minted) + [Mint(installationID, token)]
  {
    hide Rfc3339.Format, SecretStep, FluxStep;
    ghost var before := fleet.At(c);
    var tok := github.MintScopedToken(installationID, calls.mint);
    if tok.None? {
      return Err(MintFailed);
    }
    ghost var s := SecretStep(before, ns, repo, tok.value, calls);
    var err := SyncSecret(fleet, c, ns, repo, tok.value, calls);
    if err.Some? {
      return Err(err.value);
    }
    ghost var f := FluxStep(fleet.At(c), ns, repo, source, calls);
    var flux := SyncFluxGitRepository(fleet, c, ns, repo, source, calls);
    CommitConcat(old(fleet.mcps), c, s.writes, f.writes);
    if flux.Err? {
      return Err(flux.error);
    }
    r := Ok(Synced(tok.value.expiresAt, flux.value));
  }

  // ---- Cleanup ----

  datatype CleanupError = FluxDeleteFailed | SecretDeleteFailed

  datatype CleanupCalls = CleanupCalls(
    fluxRead: bool,
    fluxDelete: WriteOutcome,
    secretRead: bool,
    secretDelete: WriteOutcome)

  predicate OwnedFlux(st: Mcp, ns: string, repo: ObjectKey) {
    var key := FluxKey(ns, repo);
    key in st.flux && Owns(repo, st.flux[key].annotations)
  }

  predicate OwnedSecret(st: Mcp, ns: string, repo: ObjectKey) {
    var key := SecretKey(ns, repo);
    key in st.secrets && Owns(repo, st.secrets[key].annotations)
  }

  /** An object whose read fails is passed over without an error. */
  function Remove(st: Mcp, ns: string, repo: ObjectKey, calls: CleanupCalls): Outcome<Option<CleanupError>> {
    var flux := calls.fluxRead && OwnedFlux(st, ns, repo);
    var secret := calls.secretRead && OwnedSecret(st, ns, repo);
    var fluxWrites := if flux then Effect(DeleteFlux(FluxKey(ns, repo)), calls.fluxDelete) else [];
    if flux && calls.fluxDelete != Applied then Outcome(fluxWrites, Some(FluxDeleteFailed))
    else if !secret then Outcome(fluxWrites, None)
    else Outcome(fluxWrites + Effect(DeleteSecret(SecretKey(ns, repo)), calls.secretDelete),
                 if calls.secretDelete == Applied then None else Some(SecretDeleteFailed))
  }

  method Cleanup(fleet: Fleet, c: ObjectKey, ns: string, repo: ObjectKey, calls: CleanupCalls)
    returns (err: Option<CleanupError>)
    modifies fleet
    ensures var s := Remove(old(fleet.At(c)), ns, repo, calls);
      && err == s.result
      && fleet.mcps == Commit(old(fleet.mcps), c, s.writes)
      && fleet.log == old(fleet.log) + Tag(c, s.writes)
  {
    ghost var writes: seq<Write> := [];
    var flux := fleet.GetFlux(c, FluxKey(ns, repo), calls.fluxRead);
    if flux.Ok? && Owns(repo, flux.value.annotations) {
      var ok := fleet.Delete(c, DeleteFlux(FluxKey(ns, repo)), calls.fluxDelete);
      writes := Effect(DeleteFlux(FluxKey(ns, repo)), calls.fluxDelete);
      CommitOne(old(fleet.mcps), c, DeleteFlux(FluxKey(ns, repo)));
      if !ok {
        return Some(FluxDeleteFailed);
      }
    }
    assert fleet.mcps == Commit(old(fleet.mcps), c, writes);
    assert fleet.At(c).secrets == old(fleet.At(c)).secrets;
    var secret := fleet.GetSecret(c, SecretKey(ns, repo), calls.secretRead);
    if secret.Ok? && Owns(repo, secret.value.annotations) {
      var ok := fleet.Delete(c, DeleteSecret(SecretKey(ns, repo)), calls.secretDelete);
      ghost var more := Effect(DeleteSecret(SecretKey(ns, repo)), calls.secretDelete);
      CommitConcat(old(fleet.mcps), c, writes, more);
      if !ok {
        return Some(SecretDeleteFailed);
      }
    }
    err := None;
  }

  // ---- Names, owners and errors in plain terms ----

  /** An object is a GitRepository's own if it carries its namespace and name, joined by "/". */
  lemma OwnedMeaning(st: Mcp, ns: string, repo: ObjectKey)
    ensures var flux, secret := ObjectKey(ns, repo.name), ObjectKey(ns, repo.name + "-token");
      var managedBy, owner := "openmcp.cloud/managed-by", repo.namespace + "/" + repo.name;
      && (OwnedFlux(st, ns, repo) <==>
            && flux in st.flux && managedBy in st.flux[flux].annotations
            && st.flux[flux].annotations[managedBy] == owner)
      && (OwnedSecret(st, ns, repo) <==>
            && secret in st.secrets && managedBy in st.secrets[secret].annotations
            && st.secrets[secret].annotations[managedBy] == owner)
  {
    assert (repo.namespace + "/" + repo.name)[|repo.namespace|] == '/';
  }

  /** Rotation is needed if the read is answered and there is no Secret, no readable expiry in it, or one
      that is within the buffer. The expiry shown is the readable one. */
  lemma RotationMeaning(st: Mcp, ns: string, repo: ObjectKey, buffer: Duration, now: Instant, answered: bool)
    requires buffer < 0x7FFF_FFFF_FFFF_FFFF
    ensures var key, expiry := ObjectKey(ns, repo.name + "-token"), "openmcp.cloud/token-expires-at";
      var stored := if key in st.secrets && expiry in st.secrets[key].annotations
                    then Rfc3339.Parse(st.secrets[key].annotations[expiry]) else None;
      && (NeedsRotation(st, ns, repo, buffer, now, answered) <==>
            answered && (stored.None? || stored.value - now <= buffer))
      && CurrentTokenExpiry(st, ns, repo, answered) == if answered then stored else None
  {
    hide Rfc3339.Parse, RotationDue;
    var stored := CurrentTokenExpiry(st, ns, repo, true);
    if stored.Some? {
      DueMeaning(stored.value, now, buffer);
    }
  }

  /** A synchronisation stops at the first call that fails, and says which. */
  lemma SyncErrorMeaning(st: Mcp, ns: string, repo: ObjectKey, source: Source, calls: SyncCalls)
    ensures var r := Sync(st, ns, repo, source, calls).result;
      r.Err? ==>
        match r.error
        case MintFailed => calls.mint.None?
        case SecretReadFailed => calls.mint.Some? && !calls.secretRead
        case SecretWriteFailed => calls.mint.Some? && calls.secretRead && calls.secretWrite != Applied
        case FluxReadFailed =>
          calls.mint.Some? && calls.secretRead && calls.secretWrite == Applied && !calls.fluxRead
        case FluxWriteFailed =>
          && calls.mint.Some? && calls.secretRead && calls.secretWrite == Applied
          && calls.fluxRead && calls.fluxWrite != Applied
  {
    hide SecretFor;
  }

  lemma CleanupErrorMeaning(st: Mcp, ns: string, repo: ObjectKey, calls: CleanupCalls)
    ensures var r, flux := Remove(st, ns, repo, calls).result, OwnedFlux(st, ns, repo) && calls.fluxRead;
      && (r == Some(FluxDeleteFailed) <==> flux && calls.fluxDelete != Applied)
      && (r == Some(SecretDeleteFailed) <==>
            && (flux ==> calls.fluxDelete == Applied)
            && OwnedSecret(st, ns, repo) && calls.secretRead && calls.secretDelete != Applied)
  {
  }
}
