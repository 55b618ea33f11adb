/**
 internal/mcpaccess, second half: the AccessRequest of each (GitRepository, control plane) pair,
 and the safety of the handles obtained through it over all interleavings.
 */
module AccessRequests {
  import opened Wrappers
  import opened Names
  import opened McpStore
  import opened PlatformStore

  /** Two functions of the openmcp library: the hash that names an AccessRequest, and the
      namespace in which an MCP's cluster request lives, which may fail. */
  datatype Library = Library(requestName: string -> string, mcpNamespace: ObjectKey -> Option<string>)

  ghost predicate Collisionless(lib: Library) {
    forall s, t :: lib.requestName(s) == lib.requestName(t) ==> s == t
  }

  function RequestName(lib: Library, repo: ObjectKey, cp: ObjectKey): string {
    lib.requestName(AccessLocalName(repo, cp))
  }

  /** The cluster of a control plane. */
  function ClusterOf(lib: Library, cp: ObjectKey): Option<ObjectKey> {
    match lib.mcpNamespace(cp)
    case None => None
    case Some(ns) => Some(ObjectKey(ns, cp.name))
  }

  /** Different control planes have different clusters. */
  ghost predicate ClustersSeparate(lib: Library) {
    forall cp, cp' :: ClusterOf(lib, cp).Some? && ClusterOf(lib, cp) == ClusterOf(lib, cp') ==> cp == cp'
  }

  datatype ResolvedTarget = ResolvedTarget(controlPlane: ObjectKey, cluster: Option<ObjectKey>, pending: bool)

  datatype AccessError = NamespaceFailed | EnsureFailed | StatusFailed | AccessDenied | ClientFailed

  /** How the calls made for one control plane turn out; `client` is everything that can go wrong
      between a granted request and a client for the cluster it names. */
  datatype AccessCalls = AccessCalls(existingRead: bool, create: WriteOutcome, statusRead: bool, client: bool)

  const ACCESS_OK := AccessCalls(true, Applied, true, true)

  // ---- One target ----

  /** An existing request is left as it is, whatever it says. */
  function AfterEnsure(requests: Requests, name: string, ref: ObjectKey, calls: AccessCalls): Requests {
    if calls.existingRead && name !in requests && calls.create != Lost
    then requests[name := AccessRequest(ref, Pending)] else requests
  }

  predicate EnsureOk(requests: Requests, name: string, calls: AccessCalls) {
    calls.existingRead && (name in requests || calls.create == Applied)
  }

  function AfterOne(requests: Requests, lib: Library, repo: ObjectKey, cp: ObjectKey, calls: AccessCalls): Requests {
    match ClusterOf(lib, cp)
    case None => requests
    case Some(ref) => AfterEnsure(requests, RequestName(lib, repo, cp), ref, calls)
  }

  function OneResult(requests: Requests, lib: Library, repo: ObjectKey, cp: ObjectKey, calls: AccessCalls)
    : Result<ResolvedTarget, AccessError>
  {
    var name := RequestName(lib, repo, cp);
    match ClusterOf(lib, cp)
    case None => Err(NamespaceFailed)
    case Some(ref) =>
      if !EnsureOk(requests, name, calls) then Err(EnsureFailed)
      else if !calls.statusRead then Err(StatusFailed)
      else
        var request := AfterEnsure(requests, name, ref, calls)[name];
        match request.phase
        case Pending => Ok(ResolvedTarget(cp, None, true))
        case Denied => Err(AccessDenied)
        case Granted =>
          if calls.client then Ok(ResolvedTarget(cp, Some(request.requestRef), false)) else Err(ClientFailed)
  }

  method EnsureAccessRequest(platform: Platform, name: string, ref: ObjectKey, calls: AccessCalls) returns (ok: bool)
    modifies platform`requests
    ensures ok <==> EnsureOk(old(platform.requests), name, calls)
    ensures platform.requests == AfterEnsure(old(platform.requests), name, ref, calls)
  {
    var existing := platform.GetRequest(name, calls.existingRead);
    match existing {
      case Ok(_) => ok := true;
      case Err(ReadFailed) => ok := false;
      case Err(NotFound) => ok := platform.CreateRequest(name, AccessRequest(ref, Pending), calls.create);
    }
  }

  method ResolveOne(platform: Platform, lib: Library, repo: ObjectKey, cp: ObjectKey, calls: AccessCalls)
    returns (r: Result<ResolvedTarget, AccessError>)
    modifies platform`requests
    ensures r == OneResult(old(platform.requests), lib, repo, cp, calls)
    ensures platform.requests == AfterOne(old(platform.requests), lib, repo, cp, calls)
  {
    var ns := lib.mcpNamespace(cp);
    if ns.None? {
      return Err(NamespaceFailed);
    }
    var name := lib.requestName(AccessLocalName(repo, cp));
    var ok := EnsureAccessRequest(platform, name, ObjectKey(ns.value, cp.name), calls);
    if !ok {
      return Err(EnsureFailed);
    }
    var request := platform.GetRequest(name, calls.statusRead);
    if request.Err? {
      return Err(StatusFailed);
    }
    match request.value.phase {
      case Pending => r := Ok(ResolvedTarget(cp, None, true));
      case Denied => r := Err(AccessDenied);
      case Granted =>
        r := if calls.client then Ok(ResolvedTarget(cp, Some(request.value.requestRef), false)) else Err(ClientFailed);
    }
  }

  // ---- All targets ----

  /** How the calls for each control plane turn out. */
  type CallsFor = ObjectKey -> AccessCalls

  /** Requests and results after the targets in order; the first error ends the pass. */
  function ResolveAll(requests: Requests, lib: Library, repo: ObjectKey, refs: seq<ObjectKey>, calls: CallsFor)
    : (r: (Requests, Result<seq<ResolvedTarget>, AccessError>))
    ensures r.1.Ok? ==> |r.1.value| == |refs| && forall i :: 0 <= i < |refs| ==> r.1.value[i].controlPlane == refs[i]
  {
    if refs == [] then (requests, Ok([]))
    else
      var cp := refs[|refs| - 1];
      var (requests', front) := ResolveAll(requests, lib, repo, refs[..|refs| - 1], calls);
      if front.Err? then (requests', front)
      else
        var one := OneResult(requests', lib, repo, cp, calls(cp));
        (AfterOne(requests', lib, repo, cp, calls(cp)),
         if one.Err? then Err(one.error) else Ok(front.value + [one.value]))
  }

  /** An error among the first targets is the result for all of them. */
  lemma {:induction false} ErrorEndsPass(requests: Requests, lib: Library, repo: ObjectKey, refs: seq<ObjectKey>,
                                         calls: CallsFor, n: nat)
    requires n <= |refs| && ResolveAll(requests, lib, repo, refs[..n], calls).1.Err?
    ensures ResolveAll(requests, lib, repo, refs, calls) == ResolveAll(requests, lib, repo, refs[..n], calls)
  {
    if n == |refs| {
      assert refs[..n] == refs;
    } else {
      var front := refs[..|refs| - 1];
      assert front[..n] == refs[..n];
      ErrorEndsPass(requests, lib, repo, front, calls, n);
    }
  }

  method Resolve(platform: Platform, lib: Library, repo: ObjectKey, refs: seq<ObjectKey>, calls: CallsFor)
    returns (r: Result<seq<ResolvedTarget>, AccessError>)
    modifies platform`requests
    ensures (platform.requests, r) == ResolveAll(old(platform.requests), lib, repo, refs, calls)
  {
    ghost var before := platform.requests;
    var results: seq<ResolvedTarget> := [];
    for i := 0 to |refs|
      invariant ResolveAll(before, lib, repo, refs[..i], calls) == (platform.requests, Ok(results))
    {
      assert refs[..i + 1][..i] == refs[..i];
      var one := ResolveOne(platform, lib, repo, refs[i], calls(refs[i]));
      if one.Err? {
        ErrorEndsPass(before, lib, repo, refs, calls, i + 1);
        return Err(one.error);
      }
      results := results + [one.value];
    }
    assert refs[..|refs|] == refs;
    r := Ok(results);
  }

  /** resolver.Cleanup */
  method Cleanup(platform: Platform, lib: Library, repo: ObjectKey, cp: ObjectKey, o: WriteOutcome) returns (ok: bool)
    modifies platform`requests
    ensures ok <==> o == Applied
    ensures platform.requests == AfterDelete(old(platform.requests), RequestName(lib, repo, cp), o)
  {
    ok := platform.DeleteRequest(lib.requestName(AccessLocalName(repo, cp)), o);
  }

  // ---- Right-cluster safety ----

  /** A GitRepository and a control plane it is propagated to. */
  type Pair = (ObjectKey, ObjectKey)

  /** No two of the pairs in play whose control planes have different clusters share a request. */
  ghost predicate NamesSeparate(lib: Library, pairs: iset<Pair>) {
    forall p, q ::
      && p in pairs && q in pairs && RequestName(lib, p.0, p.1) == RequestName(lib, q.0, q.1)
      && ClusterOf(lib, p.1).Some? && ClusterOf(lib, q.1).Some?
      ==> ClusterOf(lib, p.1) == ClusterOf(lib, q.1)
  }

  /** Every request stored under the name of a pair names the cluster of the pair's control plane. */
  ghost predicate RightClusters(requests: Requests, lib: Library, pairs: iset<Pair>) {
    forall p :: p in pairs && RequestName(lib, p.0, p.1) in requests && ClusterOf(lib, p.1).Some?
      ==> ClusterOf(lib, p.1) == Some(requests[RequestName(lib, p.0, p.1)].requestRef)
  }

  datatype AccessEvent =
    | ResolvePass(repo: ObjectKey, refs: seq<ObjectKey>, calls: CallsFor)
    | CleanupPass(repo: ObjectKey, cp: ObjectKey, outcome: WriteOutcome)
    | Decide(name: string, phase: AccessPhase)
    | ForeignPut(name: string, request: AccessRequest)
    | ForeignDelete(name: string)

  function AfterEvent(requests: Requests, lib: Library, e: AccessEvent): Requests {
    match e
    case ResolvePass(repo, refs, calls) => ResolveAll(requests, lib, repo, refs, calls).0
    case CleanupPass(repo, cp, o) => AfterDelete(requests, RequestName(lib, repo, cp), o)
    case Decide(name, phase) =>
      if name in requests then requests[name := requests[name].(phase := phase)] else requests
    case ForeignPut(name, request) => requests[name := request]
    case ForeignDelete(name) => requests - {name}
  }

  ghost predicate Among(repo: ObjectKey, refs: seq<ObjectKey>, pairs: iset<Pair>) {
    forall cp :: cp in refs ==> (repo, cp) in pairs
  }

  /** Passes resolve pairs in play only, and requests of other controllers have other names. */
  ghost predicate Admissible(lib: Library, pairs: iset<Pair>, e: AccessEvent) {
    match e
    case ResolvePass(repo, refs, _) => Among(repo, refs, pairs)
    case ForeignPut(name, _) => forall p :: p in pairs ==> RequestName(lib, p.0, p.1) != name
    case _ => true
  }

  ghost predicate AllAdmissible(lib: Library, pairs: iset<Pair>, events: seq<AccessEvent>) {
    forall i :: 0 <= i < |events| ==> Admissible(lib, pairs, events[i])
  }

  function AfterEvents(requests: Requests, lib: Library, events: seq<AccessEvent>): Requests
    decreases |events|
  {
    if events == [] then requests else AfterEvents(AfterEvent(requests, lib, events[0]), lib, events[1..])
  }

  /** A pass hands every target the cluster of its own control plane, if it hands it one at all. */
  ghost predicate TargetsRight(requests: Requests, lib: Library, repo: ObjectKey, refs: seq<ObjectKey>, calls: CallsFor)
  {
    var r := ResolveAll(requests, lib, repo, refs, calls).1;
    r.Ok? ==> forall t :: t in r.value && t.cluster.Some? ==> t.cluster == ClusterOf(lib, t.controlPlane)
  }

  lemma OneKeepsRightClusters(requests: Requests, lib: Library, pairs: iset<Pair>, repo: ObjectKey, cp: ObjectKey,
                              calls: AccessCalls)
    requires NamesSeparate(lib, pairs) && RightClusters(requests, lib, pairs) && (repo, cp) in pairs
    ensures RightClusters(AfterOne(requests, lib, repo, cp, calls), lib, pairs)
    ensures var r := OneResult(requests, lib, repo, cp, calls);
      r.Ok? && r.value.cluster.Some? ==> r.value.cluster == ClusterOf(lib, cp)
  {
    hide RequestName;
    assert RequestName(lib, (repo, cp).0, (repo, cp).1) == RequestName(lib, repo, cp);
  }

  lemma {:induction false} ResolveKeepsRightClusters(requests: Requests, lib: Library, pairs: iset<Pair>,
                                                     repo: ObjectKey, refs: seq<ObjectKey>, calls: CallsFor)
    requires NamesSeparate(lib, pairs) && RightClusters(requests, lib, pairs) && Among(repo, refs, pairs)
    ensures RightClusters(ResolveAll(requests, lib, repo, refs, calls).0, lib, pairs)
    ensures TargetsRight(requests, lib, repo, refs, calls)
  {
    if refs == [] {
    } else {
      hide RightClusters, NamesSeparate, OneResult, AfterOne, ClusterOf;
      var front, cp := refs[..|refs| - 1], refs[|refs| - 1];
      assert refs == front + [cp] && cp in refs;
      ResolveKeepsRightClusters(requests, lib, pairs, repo, front, calls);
      var (after, r) := ResolveAll(requests, lib, repo, front, calls);
      if r.Ok? {
        OneKeepsRightClusters(after, lib, pairs, repo, cp, calls(cp));
        OneControlPlane(after, lib, repo, cp, calls(cp));
      }
    }
  }

  lemma OneControlPlane(requests: Requests, lib: Library, repo: ObjectKey, cp: ObjectKey, calls: AccessCalls)
    ensures var r := OneResult(requests, lib, repo, cp, calls); r.Ok? ==> r.value.controlPlane == cp
  {
  }

  lemma EventKeepsRightClusters(requests: Requests, lib: Library, pairs: iset<Pair>, e: AccessEvent)
    requires NamesSeparate(lib, pairs) && RightClusters(requests, lib, pairs) && Admissible(lib, pairs, e)
    ensures RightClusters(AfterEvent(requests, lib, e), lib, pairs)
  {
    hide RequestName;
    if e.ResolvePass? {
      ResolveKeepsRightClusters(requests, lib, pairs, e.repo, e.refs, e.calls);
    }
  }

  lemma {:induction false} EventsKeepRightClusters(requests: Requests, lib: Library, pairs: iset<Pair>,
                                                   events: seq<AccessEvent>)
    requires NamesSeparate(lib, pairs) && RightClusters(requests, lib, pairs) && AllAdmissible(lib, pairs, events)
    ensures RightClusters(AfterEvents(requests, lib, events), lib, pairs)
    decreases |events|
  {
    if events == [] {
    } else {
      hide RightClusters, NamesSeparate, Admissible, AfterEvent;
      EventKeepsRightClusters(requests, lib, pairs, events[0]);
      EventsKeepRightClusters(AfterEvent(requests, lib, events[0]), lib, pairs, events[1..]);
    }
  }

  lemma ResolveSingle(requests: Requests, lib: Library, repo: ObjectKey, cp: ObjectKey, calls: CallsFor)
    ensures var one := OneResult(requests, lib, repo, cp, calls(cp));
      ResolveAll(requests, lib, repo, [cp], calls)
      == (AfterOne(requests, lib, repo, cp, calls(cp)), if one.Err? then Err(one.error) else Ok([one.value]))
  {
    assert [cp][..|[cp]| - 1] == [];
    assert ResolveAll(requests, lib, repo, [], calls) == (requests, Ok([]));
    var one := OneResult(requests, lib, repo, cp, calls(cp));
    if one.Ok? {
      assert [] + [one.value] == [one.value];
    }
  }

  /** A request is made for one pair and granted. */
  function GrantRun(lib: Library, p: Pair, calls: CallsFor): seq<AccessEvent> {
    [ResolvePass(p.0, [p.1], calls), Decide(RequestName(lib, p.0, p.1), Granted)]
  }

  /** Any two pairs that share a request name, whoever's they are: once the first has been granted,
      the second is handed the first one's cluster. */
  lemma SharedNameCrosses(lib: Library, p: Pair, q: Pair, calls: CallsFor)
    requires calls(p.1) == ACCESS_OK && calls(q.1) == ACCESS_OK
    requires RequestName(lib, p.0, p.1) == RequestName(lib, q.0, q.1)
    requires ClusterOf(lib, p.1).Some? && ClusterOf(lib, q.1).Some?
    ensures ResolveAll(AfterEvents(map[], lib, GrantRun(lib, p, calls)), lib, q.0, [q.1], calls).1
         == Ok([ResolvedTarget(q.1, ClusterOf(lib, p.1), false)])
  {
    hide RequestName, ClusterOf;
    var name, ref := RequestName(lib, p.0, p.1), ClusterOf(lib, p.1).value;
    var first, second := ResolvePass(p.0, [p.1], calls), Decide(name, Granted);
    var granted: Requests := map[name := AccessRequest(ref, Granted)];
    ResolveSingle(map[], lib, p.0, p.1, calls);
    assert AfterEvent(AfterEvent(map[], lib, first), lib, second) == granted;
    assert AfterEvents(map[], lib, [first, second]) == granted by {
      assert [first, second][1..] == [second] && [second][1..] == [];
      assert AfterEvents(AfterEvent(map[], lib, first), lib, [second]) == AfterEvents(granted, lib, []);
    }
    ResolveSingle(granted, lib, q.0, q.1, calls);
  }

  /** Whatever passes of pairs in play, grants, denials and foreign requests have been interleaved, a
      pass hands out right clusters. */
  ghost predicate EveryRunRight(lib: Library, pairs: iset<Pair>) {
    forall events, repo, refs, calls :: AllAdmissible(lib, pairs, events) && Among(repo, refs, pairs)
      ==> TargetsRight(AfterEvents(map[], lib, events), lib, repo, refs, calls)
  }

  /** Right-cluster safety, exactly: every run is safe if and only if no two pairs in play with
      different clusters share a request name. */
  lemma RightClustersExactly(lib: Library, pairs: iset<Pair>)
    ensures EveryRunRight(lib, pairs) <==> NamesSeparate(lib, pairs)
  {
    hide RequestName, ClusterOf, TargetsRight;
    if NamesSeparate(lib, pairs) {
      forall events, repo, refs, calls | AllAdmissible(lib, pairs, events) && Among(repo, refs, pairs)
        ensures TargetsRight(AfterEvents(map[], lib, events), lib, repo, refs, calls)
      {
        EventsKeepRightClusters(map[], lib, pairs, events);
        ResolveKeepsRightClusters(AfterEvents(map[], lib, events), lib, pairs, repo, refs, calls);
      }
    }
    if EveryRunRight(lib, pairs) {
      forall p, q | p in pairs && q in pairs && RequestName(lib, p.0, p.1) == RequestName(lib, q.0, q.1)
                    && ClusterOf(lib, p.1).Some? && ClusterOf(lib, q.1).Some?
        ensures ClusterOf(lib, p.1) == ClusterOf(lib, q.1)
      {
        NoCrossing(lib, pairs, p, q);
      }
    }
  }

  lemma NoCrossing(lib: Library, pairs: iset<Pair>, p: Pair, q: Pair)
    requires EveryRunRight(lib, pairs) && p in pairs && q in pairs
    requires RequestName(lib, p.0, p.1) == RequestName(lib, q.0, q.1)
    requires ClusterOf(lib, p.1).Some? && ClusterOf(lib, q.1).Some?
    ensures ClusterOf(lib, p.1) == ClusterOf(lib, q.1)
  {
    hide RequestName, ClusterOf;
    var calls: CallsFor := cp => ACCESS_OK;
    var run := GrantRun(lib, p, calls);
    SharedNameCrosses(lib, p, q, calls);
    assert (p.0, p.1) == p && (q.0, q.1) == q;
    assert AllAdmissible(lib, pairs, run) && Among(q.0, [q.1], pairs);
    assert TargetsRight(AfterEvents(map[], lib, run), lib, q.0, [q.1], calls);
    assert ResolvedTarget(q.1, ClusterOf(lib, p.1), false) in [ResolvedTarget(q.1, ClusterOf(lib, p.1), false)];
  }

  ghost function SafePairs(): iset<Pair> {
    iset p: Pair | SafePair(p.0, p.1)
  }

  /** Hyphen-safe names are enough if the hash is injective. */
  lemma SafePairsSeparate(lib: Library)
    requires Collisionless(lib)
    ensures NamesSeparate(lib, SafePairs())
  {
    forall p, q | p in SafePairs() && q in SafePairs() && RequestName(lib, p.0, p.1) == RequestName(lib, q.0, q.1)
      ensures p.1 == q.1
    {
      LocalNameInjective(p.0, p.1, q.0, q.1);
    }
  }

  /** They are also needed: whatever the hash, a GitRepository that is propagated to x--y/z and to
      x/y--z is not safe. */
  lemma UnsafeNamesCrossClusters(lib: Library, repo: ObjectKey, pairs: iset<Pair>)
    requires (repo, ObjectKey("x--y", "z")) in pairs && (repo, ObjectKey("x", "y--z")) in pairs
    requires lib.mcpNamespace(ObjectKey("x--y", "z")).Some? && lib.mcpNamespace(ObjectKey("x", "y--z")).Some?
    ensures !EveryRunRight(lib, pairs)
  {
    var p, q := (repo, ObjectKey("x--y", "z")), (repo, ObjectKey("x", "y--z"));
    LocalNamesCollide(repo);
    assert ClusterOf(lib, p.1) != ClusterOf(lib, q.1);
    RightClustersExactly(lib, pairs);
  }

  // ---- What a pass leaves alone ----

  /** A pass creates no request but those of its own targets and changes none. */
  lemma {:induction false} ResolveOnlyAdds(requests: Requests, lib: Library, repo: ObjectKey, refs: seq<ObjectKey>,
                                           calls: CallsFor)
    ensures var after := ResolveAll(requests, lib, repo, refs, calls).0;
      && (forall name :: name in requests ==> name in after && after[name] == requests[name])
      && (forall name :: name in after && name !in requests ==>
            exists cp :: cp in refs && name == RequestName(lib, repo, cp))
  {
    if refs == [] {
    } else {
      var front, cp := refs[..|refs| - 1], refs[|refs| - 1];
      ResolveOnlyAdds(requests, lib, repo, front, calls);
      assert refs == front + [cp];
    }
  }

  /** What a pass that succeeds reports on each target is what its stored request says at the end. */
  lemma {:induction false} ResolveReportsRequests(requests: Requests, lib: Library, repo: ObjectKey,
                                                  refs: seq<ObjectKey>, calls: CallsFor, i: nat)
    requires i < |refs| && ResolveAll(requests, lib, repo, refs, calls).1.Ok?
    ensures var (after, r) := ResolveAll(requests, lib, repo, refs, calls);
      var name, t := RequestName(lib, repo, refs[i]), r.value[i];
      && name in after && after[name].phase != Denied
      && (t.pending <==> after[name].phase == Pending)
      && t.cluster == if after[name].phase == Granted then Some(after[name].requestRef) else None
  {
    hide RequestName;
    var front, cp := refs[..|refs| - 1], refs[|refs| - 1];
    if i < |front| {
      ResolveReportsRequests(requests, lib, repo, front, calls, i);
      assert RequestName(lib, repo, front[i]) == RequestName(lib, repo, refs[i]);
    }
  }

  /** With every call answered a pass succeeds exactly if each target has a cluster and none was denied. */
  lemma {:induction false} ResolvesExactly(requests: Requests, lib: Library, repo: ObjectKey, refs: seq<ObjectKey>,
                                           calls: CallsFor)
    requires forall cp :: calls(cp) == ACCESS_OK
    ensures ResolveAll(requests, lib, repo, refs, calls).1.Ok?
       <==> forall cp :: cp in refs ==> !Barred(requests, lib, repo, cp)
  {
    if refs == [] {
    } else {
      hide RequestName, ClusterOf;
      var front, cp := refs[..|refs| - 1], refs[|refs| - 1];
      assert refs == front + [cp] && cp in refs;
      ResolvesExactly(requests, lib, repo, front, calls);
      assert calls(cp) == ACCESS_OK;
      OnlyPendingAdded(requests, lib, repo, front, calls);
    }
  }

  lemma {:induction false} ResolvedHaveClusters(requests: Requests, lib: Library, repo: ObjectKey, refs: seq<ObjectKey>,
                                                calls: CallsFor)
    requires ResolveAll(requests, lib, repo, refs, calls).1.Ok?
    ensures forall cp :: cp in refs ==> ClusterOf(lib, cp).Some?
  {
    if refs == [] {
    } else {
      hide RequestName;
      assert refs == refs[..|refs| - 1] + [refs[|refs| - 1]];
      ResolvedHaveClusters(requests, lib, repo, refs[..|refs| - 1], calls);
    }
  }

  predicate DeniedFor(requests: Requests, lib: Library, repo: ObjectKey, cp: ObjectKey) {
    var name := RequestName(lib, repo, cp);
    name in requests && requests[name].phase == Denied
  }

  /** No pass can resolve the control plane: it has no cluster, or access to it was denied. */
  predicate Barred(requests: Requests, lib: Library, repo: ObjectKey, cp: ObjectKey) {
    ClusterOf(lib, cp).None? || DeniedFor(requests, lib, repo, cp)
  }

  /** A pass leaves every request as it finds it, and those it adds are pending. */
  lemma {:induction false} OnlyPendingAdded(requests: Requests, lib: Library, repo: ObjectKey, refs: seq<ObjectKey>,
                                            calls: CallsFor)
    ensures var after := ResolveAll(requests, lib, repo, refs, calls).0;
      && (forall name :: name in requests ==> name in after && after[name] == requests[name])
      && (forall name :: name in after && name !in requests ==> after[name].phase == Pending)
  {
    if refs == [] {
    } else {
      hide RequestName;
      OnlyPendingAdded(requests, lib, repo, refs[..|refs| - 1], calls);
    }
  }

  /** One barred target fails a pass for all of them, whatever the calls. */
  lemma {:induction false} BarredFailsAll(requests: Requests, lib: Library, repo: ObjectKey, refs: seq<ObjectKey>,
                                          calls: CallsFor, cp: ObjectKey)
    requires cp in refs && Barred(requests, lib, repo, cp)
    ensures ResolveAll(requests, lib, repo, refs, calls).1.Err?
  {
    hide RequestName;
    var front, last := refs[..|refs| - 1], refs[|refs| - 1];
    assert refs == front + [last];
    if cp in front {
      BarredFailsAll(requests, lib, repo, front, calls, cp);
    } else {
      OnlyPendingAdded(requests, lib, repo, front, calls);
    }
  }

  // ---- Requests and results in plain terms ----

  /** The request of a pair, under its hashed name. */
  function StoredFor(requests: Requests, lib: Library, repo: ObjectKey, cp: ObjectKey): Option<AccessRequest> {
    var local := repo.namespace + "--" + (repo.name + "--" + (cp.namespace + "--" + cp.name));
    if lib.requestName(local) in requests then Some(requests[lib.requestName(local)]) else None
  }

  /** Control planes have their clusters where the library says, under their own names. */
  lemma ClusterMeaning(lib: Library, cp: ObjectKey)
    ensures ClusterOf(lib, cp).None? <==> lib.mcpNamespace(cp).None?
    ensures ClusterOf(lib, cp).Some? ==>
      ClusterOf(lib, cp).value.namespace == lib.mcpNamespace(cp).value && ClusterOf(lib, cp).value.name == cp.name
  {
  }

  /** What one target makes of the requests: if it has none, a pending one is created that names the
      cluster of its MCP; in any other case nothing changes. */
  lemma CreatedRequest(requests: Requests, lib: Library, repo: ObjectKey, cp: ObjectKey, calls: AccessCalls)
    ensures var after, before := AfterOne(requests, lib, repo, cp, calls), StoredFor(requests, lib, repo, cp);
      var ns := lib.mcpNamespace(cp);
      if ns.Some? && before.None? && calls.existingRead && calls.create != Lost
      then && StoredFor(after, lib, repo, cp) == Some(AccessRequest(ObjectKey(ns.value, cp.name), Pending))
           && |after| == |requests| + 1
           && forall name :: name in requests ==> name in after && after[name] == requests[name]
      else after == requests
  {
    var name := RequestName(lib, repo, cp);
    if name !in requests && lib.mcpNamespace(cp).Some? && calls.existingRead && calls.create != Lost {
      assert requests[name := AccessRequest(ObjectKey(lib.mcpNamespace(cp).value, cp.name), Pending)].Keys
        == requests.Keys + {name};
    }
  }

  /** What one target is reported as: an error exactly if something fails or access was denied; pending
      until access is granted, and then with the cluster the stored request names. */
  lemma ReportedTarget(requests: Requests, lib: Library, repo: ObjectKey, cp: ObjectKey, calls: AccessCalls)
    ensures var r, before := OneResult(requests, lib, repo, cp, calls), StoredFor(requests, lib, repo, cp);
      var phase := if before.Some? then before.value.phase else Pending;
      && (r.Ok? <==>
            && lib.mcpNamespace(cp).Some? && calls.existingRead && (before.Some? || calls.create == Applied)
            && calls.statusRead && phase != Denied && (phase == Granted ==> calls.client))
      && (r.Ok? ==>
            && r.value.controlPlane == cp && r.value.pending == (phase == Pending)
            && r.value.cluster == if phase == Granted then Some(before.value.requestRef) else None)
      && (r.Err? ==>
            match r.error
            case NamespaceFailed => lib.mcpNamespace(cp).None?
            case EnsureFailed => !calls.existingRead || (before.None? && calls.create != Applied)
            case StatusFailed => !calls.statusRead
            case AccessDenied => phase == Denied
            case ClientFailed => phase == Granted && !calls.client)
  {
  }

  /** Right clusters in plain terms: in any run of pairs in play whose names separate, a target that is
      handed a cluster is handed the one in its MCP's namespace that bears its own name. */
  lemma GrantedClusterMeaning(lib: Library, pairs: iset<Pair>, events: seq<AccessEvent>, repo: ObjectKey,
                              refs: seq<ObjectKey>, calls: CallsFor, t: ResolvedTarget)
    requires NamesSeparate(lib, pairs) && AllAdmissible(lib, pairs, events) && Among(repo, refs, pairs)
    requires var r := ResolveAll(AfterEvents(map[], lib, events), lib, repo, refs, calls).1; r.Ok? && t in r.value
    ensures t.cluster.Some? ==>
      && lib.mcpNamespace(t.controlPlane).Some?
      && t.cluster.value == ObjectKey(lib.mcpNamespace(t.controlPlane).value, t.controlPlane.name)
  {
    hide RequestName, ResolveAll, ClusterOf, NamesSeparate;
    EventsKeepRightClusters(map[], lib, pairs, events);
    ResolveKeepsRightClusters(AfterEvents(map[], lib, events), lib, pairs, repo, refs, calls);
    ClusterMeaning(lib, t.controlPlane);
  }
}
