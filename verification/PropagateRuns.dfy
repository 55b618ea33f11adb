/**
 Whole runs inside one MCP: any number of GitRepositories synchronise and clean up there in any
 order, each pass may stop after any of its API calls, and others write to objects of their own.
 */
module PropagateRuns {
  import opened Wrappers
  import opened Names
  import opened McpStore
  import opened Propagate
  import Rfc3339

  datatype Event =
    | SyncPass(repo: ObjectKey, source: Source, sync: SyncCalls)
    | CleanupPass(repo: ObjectKey, cleanup: CleanupCalls)
    | Outside(write: Write)

  function EventWrites(st: Mcp, ns: string, ev: Event): seq<Write> {
    match ev
    case SyncPass(repo, source, calls) => Sync(st, ns, repo, source, calls).writes
    case CleanupPass(repo, calls) => Remove(st, ns, repo, calls).writes
    case Outside(w) => [w]
  }

  /** An event of which only the first `done` writes happened before its process died. */
  datatype Step = Step(event: Event, done: nat)

  function StepWrites(st: Mcp, ns: string, step: Step): seq<Write> {
    var ws := EventWrites(st, ns, step.event);
    if step.done < |ws| then ws[..step.done] else ws
  }

  function Next(st: Mcp, ns: string, step: Step): Mcp {
    ApplyAll(st, StepWrites(st, ns, step))
  }

  /** As any step may be cut short, the states so reached are those after every single API call. */
  function AfterSteps(st: Mcp, ns: string, steps: seq<Step>): Mcp
    decreases |steps|
  {
    if steps == [] then st else AfterSteps(Next(st, ns, steps[0]), ns, steps[1..])
  }

  lemma AfterTwo(st: Mcp, ns: string, a: Step, b: Step)
    ensures AfterSteps(st, ns, [a, b]) == Next(Next(st, ns, a), ns, b)
  {
    hide Next;
    var st1 := Next(st, ns, a);
    assert [a, b][1..] == [b] && [b][1..] == [];
    assert AfterSteps(st1, ns, [b]) == AfterSteps(Next(st1, ns, b), ns, []);
  }

  predicate TouchesFlux(w: Write, k: ObjectKey) {
    (w.PutFlux? || w.DeleteFlux?) && w.key == k
  }

  predicate TouchesSecret(w: Write, k: ObjectKey) {
    (w.PutSecret? || w.DeleteSecret?) && w.key == k
  }

  lemma {:induction false} UntouchedFlux(st: Mcp, ws: seq<Write>, k: ObjectKey)
    requires forall w :: w in ws ==> !TouchesFlux(w, k)
    ensures Lookup(ApplyAll(st, ws).flux, k) == Lookup(st.flux, k)
    decreases |ws|
  {
    if ws == [] {
    } else {
      assert ws[0] in ws;
      UntouchedFlux(Apply(st, ws[0]), ws[1..], k);
    }
  }

  lemma {:induction false} UntouchedSecret(st: Mcp, ws: seq<Write>, k: ObjectKey)
    requires forall w :: w in ws ==> !TouchesSecret(w, k)
    ensures Lookup(ApplyAll(st, ws).secrets, k) == Lookup(st.secrets, k)
    decreases |ws|
  {
    if ws == [] {
    } else {
      assert ws[0] in ws;
      UntouchedSecret(Apply(st, ws[0]), ws[1..], k);
    }
  }

  // ---- What one pass writes ----

  /** A pass writes no Secret but its token Secret and no Flux object but its own, and that one
      only where there is none yet or the one in place carries its managed-by value. */
  predicate OwnWrite(st: Mcp, ns: string, repo: ObjectKey, w: Write) {
    match w
    case PutSecret(k, s) => k == SecretKey(ns, repo)
    case DeleteSecret(k) => k == SecretKey(ns, repo)
    case PutFlux(k, f) =>
      && k == FluxKey(ns, repo) && (k in st.flux ==> OwnedFlux(st, ns, repo))
      && Owns(repo, f.annotations) && f.spec.secretRef == Some(SecretName(repo))
    case DeleteFlux(k) => k == FluxKey(ns, repo) && OwnedFlux(st, ns, repo)
  }

  /** Sync writes the Secret before the Flux object. */
  lemma SyncShape(st: Mcp, ns: string, repo: ObjectKey, source: Source, calls: SyncCalls)
    ensures var ws := Sync(st, ns, repo, source, calls).writes;
      && |ws| <= 2
      && (|ws| >= 1 ==> ws[0].PutSecret? && OwnWrite(st, ns, repo, ws[0]))
      && (|ws| == 2 ==> ws[1].PutFlux? && OwnWrite(st, ns, repo, ws[1]))
  {
    if calls.mint.Some? {
      var s := SecretStep(st, ns, repo, TokenOf(calls.mint.value), calls);
      if s.result.None? {
        ApplyOne(st, s.writes[0]);
        FluxShape(Apply(st, s.writes[0]), ns, repo, source, calls);
      }
    }
  }

  lemma FluxShape(st: Mcp, ns: string, repo: ObjectKey, source: Source, calls: SyncCalls)
    ensures var ws := FluxStep(st, ns, repo, source, calls).writes;
      |ws| <= 1 && (|ws| == 1 ==> ws[0].PutFlux? && OwnWrite(st, ns, repo, ws[0]))
  {
  }

  /** Cleanup deletes the Flux object before the Secret. */
  lemma CleanupShape(st: Mcp, ns: string, repo: ObjectKey, calls: CleanupCalls)
    ensures var ws := Remove(st, ns, repo, calls).writes;
      && |ws| <= 2
      && (|ws| >= 1 ==> OwnWrite(st, ns, repo, ws[0]) && (ws[0].DeleteFlux? || ws[0].DeleteSecret?))
      && (|ws| == 2 ==> OwnWrite(st, ns, repo, ws[1]) && ws[0].DeleteFlux? && ws[1].DeleteSecret?)
      && (|ws| >= 1 && ws[0].DeleteSecret? ==> OwnedFlux(st, ns, repo) ==> SecretPulledAway(st, ns, repo, calls))
  {
  }

  lemma PassWritesOwnObjects(st: Mcp, ns: string, step: Step)
    requires !step.event.Outside?
    ensures forall w :: w in StepWrites(st, ns, step) ==> OwnWrite(st, ns, step.event.repo, w)
  {
    hide Sync, Remove, OwnWrite, Rfc3339.Format;
    var ws := EventWrites(st, ns, step.event);
    match step.event {
      case SyncPass(repo, source, calls) => SyncShape(st, ns, repo, source, calls);
      case CleanupPass(repo, calls) => CleanupShape(st, ns, repo, calls);
    }
    forall w | w in StepWrites(st, ns, step)
      ensures OwnWrite(st, ns, step.event.repo, w)
    {
      var i :| 0 <= i < |StepWrites(st, ns, step)| && StepWrites(st, ns, step)[i] == w;
      assert w == ws[i];
    }
  }

  lemma ApplyOne(st: Mcp, w: Write)
    ensures ApplyAll(st, [w]) == Apply(st, w)
  {
  }

  lemma ApplyTwo(st: Mcp, u: Write, w: Write)
    ensures ApplyAll(st, [u, w]) == Apply(Apply(st, u), w)
  {
    assert [u, w] == [u] + [w];
    ApplyAllConcat(st, [u], [w]);
    ApplyOne(st, u);
    ApplyOne(Apply(st, u), w);
  }

  // ---- Foreign Flux objects ----

  predicate LeavesAlone(ev: Event, k: ObjectKey, owner: string) {
    match ev
    case SyncPass(repo, _, _) => SlashKey(repo) != owner
    case CleanupPass(repo, _) => SlashKey(repo) != owner
    case Outside(w) => !TouchesFlux(w, k)
  }

  function OwnerOf(flux: FluxRepository): string {
    Annotation(flux.annotations, MANAGED_BY)
  }

  lemma StepLeavesForeignFlux(st: Mcp, ns: string, step: Step, k: ObjectKey)
    requires k in st.flux && LeavesAlone(step.event, k, OwnerOf(st.flux[k]))
    ensures Lookup(Next(st, ns, step).flux, k) == Some(st.flux[k])
  {
    if step.event.Outside? {
      assert forall w :: w in StepWrites(st, ns, step) ==> w == step.event.write;
    } else {
      PassWritesOwnObjects(st, ns, step);
      forall w | w in StepWrites(st, ns, step)
        ensures !TouchesFlux(w, k)
      {
        assert OwnWrite(st, ns, step.event.repo, w);
      }
    }
    UntouchedFlux(st, StepWrites(st, ns, step), k);
  }

  /** Foreign Flux objects are untouchable: through any run of passes of GitRepositories whose
      managed-by value differs from the object's, the object stays exactly as it is. */
  lemma {:induction false} ForeignFluxUntouched(st: Mcp, ns: string, steps: seq<Step>, k: ObjectKey)
    requires k in st.flux
    requires forall i :: 0 <= i < |steps| ==> LeavesAlone(steps[i].event, k, OwnerOf(st.flux[k]))
    ensures Lookup(AfterSteps(st, ns, steps).flux, k) == Some(st.flux[k])
    decreases |steps|
  {
    if steps == [] {
    } else {
      StepLeavesForeignFlux(st, ns, steps[0], k);
      ForeignFluxUntouched(Next(st, ns, steps[0]), ns, steps[1..], k);
    }
  }

  /** One pass, whoever's it is, never leaves another owner on a Flux object it found. */
  lemma StepKeepsOwner(st: Mcp, ns: string, step: Step, k: ObjectKey)
    requires k in st.flux
    requires step.event.Outside? ==> !TouchesFlux(step.event.write, k)
    ensures k in Next(st, ns, step).flux ==> OwnerOf(Next(st, ns, step).flux[k]) == OwnerOf(st.flux[k])
  {
    if LeavesAlone(step.event, k, OwnerOf(st.flux[k])) {
      StepLeavesForeignFlux(st, ns, step, k);
    } else {
      PassWritesOwnObjects(st, ns, step);
      OwnWritesKeepOwner(st, st, ns, step.event.repo, StepWrites(st, ns, step), k);
    }
  }

  lemma {:induction false} OwnWritesKeepOwner(st0: Mcp, st: Mcp, ns: string, repo: ObjectKey, ws: seq<Write>,
                                              k: ObjectKey)
    requires forall w :: w in ws ==> OwnWrite(st0, ns, repo, w)
    requires k in st.flux ==> OwnerOf(st.flux[k]) == SlashKey(repo)
    ensures k in ApplyAll(st, ws).flux ==> OwnerOf(ApplyAll(st, ws).flux[k]) == SlashKey(repo)
    decreases |ws|
  {
    if ws == [] {
    } else {
      assert ws[0] in ws;
      OwnWritesKeepOwner(st0, Apply(st, ws[0]), ns, repo, ws[1..], k);
    }
  }

  predicate ExistsThroughout(st: Mcp, ns: string, steps: seq<Step>, k: ObjectKey)
    decreases |steps|
  {
    k in st.flux && (steps == [] || ExistsThroughout(Next(st, ns, steps[0]), ns, steps[1..], k))
  }

  /** Hence the owner of a Flux object never changes while the object exists, whatever passes run. */
  lemma {:induction false} OwnerNeverChanges(st: Mcp, ns: string, steps: seq<Step>, k: ObjectKey)
    requires ExistsThroughout(st, ns, steps, k)
    requires forall i :: 0 <= i < |steps| ==> steps[i].event.Outside? ==> !TouchesFlux(steps[i].event.write, k)
    ensures k in AfterSteps(st, ns, steps).flux
    ensures OwnerOf(AfterSteps(st, ns, steps).flux[k]) == OwnerOf(st.flux[k])
    decreases |steps|
  {
    if steps == [] {
    } else {
      StepKeepsOwner(st, ns, steps[0], k);
      OwnerNeverChanges(Next(st, ns, steps[0]), ns, steps[1..], k);
    }
  }

  // ---- Crash-safe referential integrity ----

  /** The Flux object of this GitRepository, if it is its own, names its token Secret, which exists. */
  predicate Integrity(st: Mcp, ns: string, repo: ObjectKey) {
    OwnedFlux(st, ns, repo) ==>
      && st.flux[FluxKey(ns, repo)].spec.secretRef == Some(SecretName(repo))
      && SecretKey(ns, repo) in st.secrets
  }

  /** Cleanup passed over its Flux object because the read failed, and still removed the Secret. */
  predicate SecretPulledAway(st: Mcp, ns: string, repo: ObjectKey, calls: CleanupCalls) {
    && OwnedFlux(st, ns, repo) && !calls.fluxRead
    && OwnedSecret(st, ns, repo) && calls.secretRead && calls.secretDelete != Lost
  }

  /** One GitRepository of this name; nobody else writes its two objects; Cleanup reads accurately. */
  predicate Undisturbed(st: Mcp, ns: string, repo: ObjectKey, ev: Event) {
    match ev
    case SyncPass(r, _, _) => r.name == repo.name ==> r == repo
    case CleanupPass(r, calls) =>
      && (r.name == repo.name ==> r == repo)
      && (r == repo ==> !SecretPulledAway(st, ns, repo, calls))
    case Outside(w) => !TouchesFlux(w, FluxKey(ns, repo)) && !TouchesSecret(w, SecretKey(ns, repo))
  }

  lemma SecretWriteKeepsIntegrity(st: Mcp, ns: string, repo: ObjectKey, w: Write)
    requires Integrity(st, ns, repo) && w.PutSecret? && OwnWrite(st, ns, repo, w)
    ensures Integrity(Apply(st, w), ns, repo)
  {
  }

  lemma FluxWriteKeepsIntegrity(st: Mcp, ns: string, repo: ObjectKey, u: Write, w: Write)
    requires u.PutSecret? && OwnWrite(st, ns, repo, u)
    requires w.PutFlux? && OwnWrite(st, ns, repo, w)
    ensures Integrity(Apply(Apply(st, u), w), ns, repo)
  {
  }

  lemma SyncKeepsIntegrity(st: Mcp, ns: string, step: Step)
    requires step.event.SyncPass? && Integrity(st, ns, step.event.repo)
    ensures Integrity(Next(st, ns, step), ns, step.event.repo)
  {
    hide Sync, Rfc3339.Format;
    var repo := step.event.repo;
    SyncShape(st, ns, repo, step.event.source, step.event.sync);
    var ws := StepWrites(st, ns, step);
    if |ws| == 1 {
      assert ws == [ws[0]];
      ApplyOne(st, ws[0]);
      SecretWriteKeepsIntegrity(st, ns, repo, ws[0]);
    } else if |ws| == 2 {
      assert ws == [ws[0], ws[1]];
      ApplyTwo(st, ws[0], ws[1]);
      FluxWriteKeepsIntegrity(st, ns, repo, ws[0], ws[1]);
    }
  }

  /** A cleanup pass keeps the integrity after each of its calls exactly if it does not pull the
      Secret away. */
  lemma CleanupKeepsIntegrity(st: Mcp, ns: string, repo: ObjectKey, calls: CleanupCalls)
    requires Integrity(st, ns, repo)
    ensures (forall done: nat :: Integrity(Next(st, ns, Step(CleanupPass(repo, calls), done)), ns, repo))
       <==> !SecretPulledAway(st, ns, repo, calls)
  {
    var ev := CleanupPass(repo, calls);
    var ws := EventWrites(st, ns, ev);
    if SecretPulledAway(st, ns, repo, calls) {
      assert ws == [DeleteSecret(SecretKey(ns, repo))];
      ApplyOne(st, ws[0]);
      assert !Integrity(Next(st, ns, Step(ev, 1)), ns, repo);
    } else {
      forall done: nat
        ensures Integrity(Next(st, ns, Step(ev, done)), ns, repo)
      {
        CleanupPrefix(st, ns, repo, calls, done);
      }
    }
  }

  lemma CleanupPrefix(st: Mcp, ns: string, repo: ObjectKey, calls: CleanupCalls, done: nat)
    requires Integrity(st, ns, repo) && !SecretPulledAway(st, ns, repo, calls)
    ensures Integrity(Next(st, ns, Step(CleanupPass(repo, calls), done)), ns, repo)
  {
    var ws := StepWrites(st, ns, Step(CleanupPass(repo, calls), done));
    CleanupShape(st, ns, repo, calls);
    if |ws| == 1 {
      assert ws == [ws[0]];
      ApplyOne(st, ws[0]);
    } else if |ws| == 2 {
      assert ws == [ws[0], ws[1]];
      ApplyTwo(st, ws[0], ws[1]);
    }
  }

  lemma OutsideWrites(st: Mcp, ns: string, step: Step)
    requires step.event.Outside?
    ensures StepWrites(st, ns, step) == [step.event.write] || StepWrites(st, ns, step) == []
  {
  }

  lemma OthersKeepIntegrity(st: Mcp, ns: string, repo: ObjectKey, step: Step)
    requires Integrity(st, ns, repo) && Undisturbed(st, ns, repo, step.event)
    requires step.event.Outside? || step.event.repo.name != repo.name
    ensures Integrity(Next(st, ns, step), ns, repo)
  {
    hide EventWrites, Rfc3339.Format;
    var ws := StepWrites(st, ns, step);
    if step.event.Outside? {
      assert ws == [step.event.write] || ws == [] by { OutsideWrites(st, ns, step); }
    } else {
      PassWritesOwnObjects(st, ns, step);
      if SecretName(step.event.repo) == SecretName(repo) {
        SecretNameInjective(step.event.repo, repo);
      }
      assert forall w :: w in ws ==> OwnWrite(st, ns, step.event.repo, w);
    }
    UntouchedFlux(st, ws, FluxKey(ns, repo));
    UntouchedSecret(st, ws, SecretKey(ns, repo));
  }

  lemma StepKeepsIntegrity(st: Mcp, ns: string, repo: ObjectKey, step: Step)
    requires Integrity(st, ns, repo) && Undisturbed(st, ns, repo, step.event)
    ensures Integrity(Next(st, ns, step), ns, repo)
  {
    match step.event
    case SyncPass(r, _, _) =>
      if r == repo {
        SyncKeepsIntegrity(st, ns, step);
      } else {
        OthersKeepIntegrity(st, ns, repo, step);
      }
    case CleanupPass(r, calls) =>
      if r == repo {
        CleanupPrefix(st, ns, repo, calls, step.done);
        assert step == Step(CleanupPass(repo, calls), step.done);
      } else {
        OthersKeepIntegrity(st, ns, repo, step);
      }
    case Outside(_) =>
      OthersKeepIntegrity(st, ns, repo, step);
  }

  predicate AllUndisturbed(st: Mcp, ns: string, repo: ObjectKey, steps: seq<Step>)
    decreases |steps|
  {
    steps == [] ||
    (Undisturbed(st, ns, repo, steps[0].event)
     && AllUndisturbed(Next(st, ns, steps[0]), ns, repo, steps[1..]))
  }

  /** Crash-safe referential integrity: after every API call of every run, an owned Flux object
      points at a token Secret that exists in the same MCP. */
  lemma {:induction false} IntegrityAlways(st: Mcp, ns: string, repo: ObjectKey, steps: seq<Step>)
    requires Integrity(st, ns, repo) && AllUndisturbed(st, ns, repo, steps)
    ensures Integrity(AfterSteps(st, ns, steps), ns, repo)
    decreases |steps|
  {
    if steps == [] {
    } else {
      StepKeepsIntegrity(st, ns, repo, steps[0]);
      IntegrityAlways(Next(st, ns, steps[0]), ns, repo, steps[1..]);
    }
  }

  /** Syncing over another GitRepository's objects takes the Secret and leaves the Flux object. */
  lemma SyncTakesSecret(st: Mcp, ns: string, b: ObjectKey, source: Source, mint: MintResponse)
    requires FluxKey(ns, b) in st.flux && !OwnedFlux(st, ns, b)
    ensures var calls := SyncCalls(Some(mint), true, Applied, true, Applied);
      var st' := ApplyAll(st, Sync(st, ns, b, source, calls).writes);
      st'.flux == st.flux && OwnedSecret(st', ns, b)
  {
    var k := SecretKey(ns, b);
    ApplyOne(st, PutSecret(k, SecretFor(Lookup(st.secrets, k), b, TokenOf(mint))));
  }

  lemma CleanupTakesSecret(st: Mcp, ns: string, b: ObjectKey)
    requires !OwnedFlux(st, ns, b) && OwnedSecret(st, ns, b)
    ensures var st' := ApplyAll(st, Remove(st, ns, b, CleanupCalls(true, Applied, true, Applied)).writes);
      st'.flux == st.flux && SecretKey(ns, b) !in st'.secrets
  {
  }

  /** Why one GitRepository of the name has to be assumed: a second one, of another namespace,
      takes over the Secret, meets a conflict on the Flux object, and takes the Secret with it. */
  lemma SecondRepositoryBreaksIntegrity(st: Mcp, ns: string, a: ObjectKey, b: ObjectKey, source: Source,
                                        mint: MintResponse)
    requires OwnedFlux(st, ns, a) && a.name == b.name && SlashKey(a) != SlashKey(b)
    ensures var sync := SyncPass(b, source, SyncCalls(Some(mint), true, Applied, true, Applied));
      var cleanup := CleanupPass(b, CleanupCalls(true, Applied, true, Applied));
      !Integrity(AfterSteps(st, ns, [Step(sync, 2), Step(cleanup, 2)]), ns, a)
  {
    hide Sync, Remove, Rfc3339.Format;
    var sync := Step(SyncPass(b, source, SyncCalls(Some(mint), true, Applied, true, Applied)), 2);
    var cleanup := Step(CleanupPass(b, CleanupCalls(true, Applied, true, Applied)), 2);
    SyncShape(st, ns, b, source, sync.event.sync);
    SyncTakesSecret(st, ns, b, source, mint);
    var st1 := Next(st, ns, sync);
    CleanupShape(st1, ns, b, cleanup.event.cleanup);
    CleanupTakesSecret(st1, ns, b);
    var st2 := Next(st1, ns, cleanup);
    AfterTwo(st, ns, sync, cleanup);
    assert SecretKey(ns, a) !in st2.secrets && OwnedFlux(st2, ns, a);
  }

  // ---- One of its name ----

  const EMPTY := Mcp(map[], map[])

  /** An event in which only GitRepositories in play take part, cleanups read their Flux object, and
      others leave the objects of `repo` alone. */
  ghost predicate Plays(ev: Event, ns: string, repos: iset<ObjectKey>, repo: ObjectKey) {
    match ev
    case SyncPass(r, _, _) => r in repos
    case CleanupPass(r, calls) => r in repos && calls.fluxRead
    case Outside(w) => !TouchesFlux(w, FluxKey(ns, repo)) && !TouchesSecret(w, SecretKey(ns, repo))
  }

  ghost predicate AllPlay(steps: seq<Step>, ns: string, repos: iset<ObjectKey>, repo: ObjectKey) {
    forall i :: 0 <= i < |steps| ==> Plays(steps[i].event, ns, repos, repo)
  }

  /** Whatever passes of theirs are made, complete or cut short, the integrity of `repo` is kept. */
  ghost predicate EveryRunIntact(ns: string, repos: iset<ObjectKey>, repo: ObjectKey) {
    forall steps :: AllPlay(steps, ns, repos, repo) ==> Integrity(AfterSteps(EMPTY, ns, steps), ns, repo)
  }

  lemma {:induction false} PlayersUndisturbed(st: Mcp, ns: string, repos: iset<ObjectKey>, repo: ObjectKey,
                                              steps: seq<Step>)
    requires forall other :: other in repos && other.name == repo.name ==> other == repo
    requires AllPlay(steps, ns, repos, repo)
    ensures AllUndisturbed(st, ns, repo, steps)
    decreases |steps|
  {
    if steps == [] {
    } else {
      hide Next;
      assert Plays(steps[0].event, ns, repos, repo);
      PlayersUndisturbed(Next(st, ns, steps[0]), ns, repos, repo, steps[1..]);
    }
  }

  lemma SlashKeysDiffer(a: ObjectKey, b: ObjectKey)
    requires a.name == b.name && a != b
    ensures SlashKey(a) != SlashKey(b)
  {
    if SlashKey(a) == SlashKey(b) {
      SameHead(a.namespace + "/", b.namespace + "/", a.name);
      SameHead(a.namespace, b.namespace, "/");
    }
  }

  lemma FirstSyncOwns(ns: string, a: ObjectKey, source: Source, mint: MintResponse)
    ensures var sync := SyncPass(a, source, SyncCalls(Some(mint), true, Applied, true, Applied));
      OwnedFlux(Next(EMPTY, ns, Step(sync, 2)), ns, a)
  {
    hide Rfc3339.Format, SecretFor;
    var calls := SyncCalls(Some(mint), true, Applied, true, Applied);
    var step := Step(SyncPass(a, source, calls), 2);
    SyncShape(EMPTY, ns, a, source, calls);
    var s := SecretStep(EMPTY, ns, a, TokenOf(mint), calls);
    ApplyOne(EMPTY, s.writes[0]);
    var ws := EventWrites(EMPTY, ns, step.event);
    assert ws == [ws[0], ws[1]] && StepWrites(EMPTY, ns, step) == ws;
    ApplyTwo(EMPTY, ws[0], ws[1]);
  }

  /** A run that breaks the integrity of `repo`, if another one of its name is in play. */
  lemma AnotherBreaks(ns: string, repos: iset<ObjectKey>, repo: ObjectKey, other: ObjectKey)
    requires repo in repos && other in repos && other.name == repo.name && other != repo
    ensures !EveryRunIntact(ns, repos, repo)
  {
    hide Next, Integrity;
    var source, mint := Source("", GitRef("", "", "")), MintResponse("", None);
    var calls := SyncCalls(Some(mint), true, Applied, true, Applied);
    var own := Step(SyncPass(repo, source, calls), 2);
    var steps := [Step(SyncPass(other, source, calls), 2),
                  Step(CleanupPass(other, CleanupCalls(true, Applied, true, Applied)), 2)];
    FirstSyncOwns(ns, repo, source, mint);
    SlashKeysDiffer(repo, other);
    SecondRepositoryBreaksIntegrity(Next(EMPTY, ns, own), ns, repo, other, source, mint);
    assert ([own] + steps)[1..] == steps;
    assert AllPlay([own] + steps, ns, repos, repo);
    assert AfterSteps(EMPTY, ns, [own] + steps) == AfterSteps(Next(EMPTY, ns, own), ns, steps);
  }

  /** Integrity, exactly: with accurate reads every run keeps the integrity of a GitRepository if and only
      if no other one in play has its name. */
  lemma IntegrityExactly(ns: string, repos: iset<ObjectKey>, repo: ObjectKey)
    requires repo in repos
    ensures EveryRunIntact(ns, repos, repo)
       <==> forall other :: other in repos && other.name == repo.name ==> other == repo
  {
    if other :| other in repos && other.name == repo.name && other != repo {
      AnotherBreaks(ns, repos, repo, other);
    } else {
      forall steps | AllPlay(steps, ns, repos, repo)
        ensures Integrity(AfterSteps(EMPTY, ns, steps), ns, repo)
      {
        PlayersUndisturbed(EMPTY, ns, repos, repo, steps);
        IntegrityAlways(EMPTY, ns, repo, steps);
      }
    }
  }
}
