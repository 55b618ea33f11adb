/** Whole runs of the system: passes of the reconciler for any GitRepositories, in any order, and
    changes by others in between. In each MCP a pass is a sequence of the steps of PropagateRuns. */
module SystemRuns {
  import opened Wrappers
  import opened GoTime
  import opened Names
  import opened McpStore
  import opened PlatformStore
  import opened AccessRequests
  import opened Propagate
  import opened PropagateRuns
  import opened GitRepositoryController
  import opened TokenValidity

  // ---- A pass, seen from one MCP ----

  /** Steps of one GitRepository; if `accurate` then no cleanup fails to read its Flux object. */
  predicate StepsOf(steps: seq<Step>, repo: ObjectKey, accurate: bool) {
    forall i :: 0 <= i < |steps| ==>
      && !steps[i].event.Outside? && steps[i].event.repo == repo
      && (accurate && steps[i].event.CleanupPass? ==> steps[i].event.cleanup.fluxRead)
  }

  ghost predicate Moves(st: Mcp, st': Mcp, ns: string, repo: ObjectKey, accurate: bool) {
    exists steps :: StepsOf(steps, repo, accurate) && AfterSteps(st, ns, steps) == st'
  }

  lemma {:induction false} AfterConcat(st: Mcp, ns: string, a: seq<Step>, b: seq<Step>)
    ensures AfterSteps(st, ns, a + b) == AfterSteps(AfterSteps(st, ns, a), ns, b)
    decreases |a|
  {
    hide Next;
    if a == [] {
      assert a + b == b;
    } else {
      AfterConcat(Next(st, ns, a[0]), ns, a[1..], b);
      assert (a + b)[1..] == a[1..] + b;
    }
  }

  lemma MovesNot(st: Mcp, ns: string, repo: ObjectKey, accurate: bool)
    ensures Moves(st, st, ns, repo, accurate)
  {
    assert StepsOf([], repo, accurate) && AfterSteps(st, ns, []) == st;
  }

  lemma MovesOnce(st: Mcp, ns: string, step: Step, accurate: bool)
    requires !step.event.Outside? && StepsOf([step], step.event.repo, accurate)
    ensures Moves(st, Next(st, ns, step), ns, step.event.repo, accurate)
  {
    assert [step][1..] == [];
    assert AfterSteps(st, ns, [step]) == AfterSteps(Next(st, ns, step), ns, []);
  }

  lemma MovesTwice(st: Mcp, st1: Mcp, st2: Mcp, ns: string, repo: ObjectKey, accurate: bool)
    requires Moves(st, st1, ns, repo, accurate) && Moves(st1, st2, ns, repo, accurate)
    ensures Moves(st, st2, ns, repo, accurate)
  {
    var a :| StepsOf(a, repo, accurate) && AfterSteps(st, ns, a) == st1;
    var b :| StepsOf(b, repo, accurate) && AfterSteps(st1, ns, b) == st2;
    AfterConcat(st, ns, a, b);
    assert StepsOf(a + b, repo, accurate);
  }

  /** A log that grows by what one target adds: cut anywhere, it is the log so far, cut, or all of
      it and the first of the new writes. */
  lemma CutLog(mcps: map<ObjectKey, Mcp>, log: Log, c: ObjectKey, ws: seq<Write>, n: nat)
    requires n <= |log| + |ws|
    ensures Replay(mcps, (log + Tag(c, ws))[..n])
         == if n <= |log| then Replay(mcps, log[..n]) else Commit(Replay(mcps, log), c, ws[..n - |log|])
  {
    if n <= |log| {
      assert (log + Tag(c, ws))[..n] == log[..n];
    } else {
      assert (log + Tag(c, ws))[..n] == log + Tag(c, ws[..n - |log|]);
      ReplayConcat(mcps, log, Tag(c, ws[..n - |log|]));
      ReplayTagged(Replay(mcps, log), c, ws[..n - |log|]);
    }
  }

  lemma WholeLog(mcps: map<ObjectKey, Mcp>, log: Log, c: ObjectKey, ws: seq<Write>)
    ensures Replay(mcps, log + Tag(c, ws)) == Commit(Replay(mcps, log), c, ws)
  {
    ReplayConcat(mcps, log, Tag(c, ws));
    ReplayTagged(Replay(mcps, log), c, ws);
  }

  /** One more turn, once the log so far and the cut turn are known to move the MCP. */
  lemma TurnMoves(mcps: map<ObjectKey, Mcp>, log: Log, d: ObjectKey, ws: seq<Write>, done: nat, c: ObjectKey,
                  ns: string, repo: ObjectKey, accurate: bool)
    requires done <= |log| + |ws|
    requires var n := if done <= |log| then done else |log|;
      Moves(McpAt(mcps, c), McpAt(Replay(mcps, log[..n]), c), ns, repo, accurate)
    requires var sofar := Replay(mcps, log);
      done > |log| ==> Moves(McpAt(sofar, c), McpAt(Commit(sofar, d, ws[..done - |log|]), c), ns, repo, accurate)
    ensures Moves(McpAt(mcps, c), McpAt(Replay(mcps, (log + Tag(d, ws))[..done]), c), ns, repo, accurate)
    ensures Replay(mcps, log + Tag(d, ws)) == Commit(Replay(mcps, log), d, ws)
  {
    hide Moves, Commit, Replay;
    CutLog(mcps, log, d, ws, done);
    WholeLog(mcps, log, d, ws);
    if done > |log| {
      assert log[..|log|] == log;
      MovesTwice(McpAt(mcps, c), McpAt(Replay(mcps, log), c), McpAt(Replay(mcps, (log + Tag(d, ws))[..done]), c),
                 ns, repo, accurate);
    }
  }

  lemma VisitMoves(mcps: map<ObjectKey, Mcp>, cfg: Config, repo: ObjectKey, source: Source, t: ResolvedTarget,
                   now: Instant, calls: TargetCalls, done: nat, c: ObjectKey)
    requires t.cluster.Some?
    requires done <= |VisitTarget(mcps, cfg, repo, source, t, now, calls).writes|
    ensures var ws := VisitTarget(mcps, cfg, repo, source, t, now, calls).writes[..done];
      Moves(McpAt(mcps, c), McpAt(Commit(mcps, t.cluster.value, ws), c), cfg.fluxNamespace, repo, true)
  {
    hide Sync, NeedsRotation, CurrentTokenExpiry, Moves, ApplyAll;
    var ns, st := cfg.fluxNamespace, McpAt(mcps, c);
    var ws := VisitTarget(mcps, cfg, repo, source, t, now, calls).writes;
    MovesNot(st, ns, repo, true);
    NoWrites(st);
    McpAtCommit(mcps, t.cluster.value, ws[..done], c);
    if t.cluster == Some(c) && ws != [] {
      var step := Step(SyncPass(repo, source, calls.sync), done);
      SyncShape(st, ns, repo, source, calls.sync);
      assert StepWrites(st, ns, step) == ws[..done];
      MovesOnce(st, ns, step, true);
    }
  }

  /** Cut after any of its writes, a loop over targets amounts to steps of its GitRepository, the last
      one possibly cut short. */
  lemma {:induction false} VisitAllMoves(mcps: map<ObjectKey, Mcp>, cfg: Config, repo: ObjectKey, source: Source,
                                         targets: seq<ResolvedTarget>, now: Instant, calls: TargetCallsFor,
                                         done: nat, c: ObjectKey)
    requires done <= |VisitAll(mcps, cfg, repo, source, targets, now, calls).writes|
    ensures var v := VisitAll(mcps, cfg, repo, source, targets, now, calls);
      && v.mcps == Replay(mcps, v.writes)
      && Moves(McpAt(mcps, c), McpAt(Replay(mcps, v.writes[..done]), c), cfg.fluxNamespace, repo, true)
  {
    hide VisitTarget, Moves, Commit, Replay;
    if targets == [] {
      NothingReplayed(mcps);
      MovesNot(McpAt(mcps, c), cfg.fluxNamespace, repo, true);
    } else {
      var front, t := targets[..|targets| - 1], targets[|targets| - 1];
      var before := VisitAll(mcps, cfg, repo, source, front, now, calls);
      var all := VisitAll(mcps, cfg, repo, source, targets, now, calls);
      var v := VisitTarget(before.mcps, cfg, repo, source, t, now, calls(t.controlPlane));
      var n := if done <= |before.writes| then done else |before.writes|;
      VisitAllMoves(mcps, cfg, repo, source, front, now, calls, n, c);
      if t.cluster.Some? {
        if done > n {
          VisitMoves(before.mcps, cfg, repo, source, t, now, calls(t.controlPlane), done - n, c);
        }
        TurnMoves(mcps, before.writes, t.cluster.value, v.writes, done, c, cfg.fluxNamespace, repo, true);
      } else {
        assert all.writes == before.writes;
      }
    }
  }

  lemma RemovalMoves(mcps: map<ObjectKey, Mcp>, cfg: Config, repo: ObjectKey, t: ResolvedTarget, calls: CleanupCalls,
                     done: nat, c: ObjectKey, accurate: bool)
    requires t.cluster.Some? && done <= |RemovalOf(mcps, cfg, repo, t, calls).writes|
    requires accurate ==> calls.fluxRead
    ensures var ws := RemovalOf(mcps, cfg, repo, t, calls).writes[..done];
      Moves(McpAt(mcps, c), McpAt(Commit(mcps, t.cluster.value, ws), c), cfg.fluxNamespace, repo, accurate)
  {
    hide Remove, Moves, ApplyAll;
    var ns, st := cfg.fluxNamespace, McpAt(mcps, c);
    var ws := RemovalOf(mcps, cfg, repo, t, calls).writes;
    McpAtCommit(mcps, t.cluster.value, ws[..done], c);
    if t.cluster == Some(c) {
      var step := Step(Event.CleanupPass(repo, calls), done);
      assert StepWrites(st, ns, step) == ws[..done];
      MovesOnce(st, ns, step, accurate);
    } else {
      MovesNot(st, ns, repo, accurate);
    }
  }

  /** No cleanup call fails to read its Flux object. */
  ghost predicate CleanupReads(calls: PassCalls) {
    forall cp :: calls.cleanup(cp).fluxRead
  }

  lemma {:induction false} CleanAllMoves(requests: Requests, mcps: map<ObjectKey, Mcp>, env: Env, repo: ObjectKey,
                                         targets: seq<ResolvedTarget>, calls: PassCalls,
                                         done: nat, c: ObjectKey, accurate: bool)
    requires accurate ==> CleanupReads(calls)
    requires done <= |CleanAll(requests, mcps, env, repo, targets, calls).writes|
    ensures var after := CleanAll(requests, mcps, env, repo, targets, calls);
      && after.mcps == Replay(mcps, after.writes)
      && Moves(McpAt(mcps, c), McpAt(Replay(mcps, after.writes[..done]), c), env.cfg.fluxNamespace, repo, accurate)
  {
    hide RemovalOf, Moves, Commit, Replay, AfterDelete, RequestName;
    if targets == [] {
      NothingReplayed(mcps);
      MovesNot(McpAt(mcps, c), env.cfg.fluxNamespace, repo, accurate);
    } else {
      var front, t := targets[..|targets| - 1], targets[|targets| - 1];
      var before := CleanAll(requests, mcps, env, repo, front, calls);
      var all := CleanAll(requests, mcps, env, repo, targets, calls);
      var removal := RemovalOf(before.mcps, env.cfg, repo, t, calls.cleanup(t.controlPlane));
      var n := if done <= |before.writes| then done else |before.writes|;
      CleanAllMoves(requests, mcps, env, repo, front, calls, n, c, accurate);
      if t.cluster.Some? {
        if done > n {
          RemovalMoves(before.mcps, env.cfg, repo, t, calls.cleanup(t.controlPlane), done - n, c, accurate);
        }
        TurnMoves(mcps, before.writes, t.cluster.value, removal.writes, done, c, env.cfg.fluxNamespace, repo, accurate);
      }
    }
  }

  lemma MovesAnyhow(st: Mcp, st': Mcp, ns: string, repo: ObjectKey)
    requires Moves(st, st', ns, repo, true)
    ensures Moves(st, st', ns, repo, false)
  {
    var steps :| StepsOf(steps, repo, true) && AfterSteps(st, ns, steps) == st';
    assert StepsOf(steps, repo, false);
  }

  /** The MCPs after the first `done` writes of a pass. */
  function McpsAfter(w: World, p: Pass, done: nat): map<ObjectKey, Mcp> {
    Replay(w.mcps, if done <= |p.writes| then p.writes[..done] else p.writes)
  }

  /** Whatever branch a pass of the reconciler takes, its log accounts for all that happens to the
      MCPs, and after any number of its writes each MCP has seen steps of its own GitRepository. */
  lemma PassMoves(w: World, repo: ObjectKey, env: Env, now: Instant, calls: PassCalls, done: nat, c: ObjectKey,
                  accurate: bool)
    requires accurate ==> CleanupReads(calls)
    ensures var p := ReconcilePass(w, repo, env, now, calls);
      && p.world.mcps == Replay(w.mcps, p.writes)
      && Moves(McpAt(w.mcps, c), McpAt(McpsAfter(w, p, done), c), env.cfg.fluxNamespace, repo, accurate)
  {
    hide Targets, CleanAll, VisitAll, Moves, ResolveCredential, ClientReady, CleanupReads, Replay;
    var p := ReconcilePass(w, repo, env, now, calls);
    var n := if done <= |p.writes| then done else |p.writes|;
    assert p.writes[..|p.writes|] == p.writes;
    MovesNot(McpAt(w.mcps, c), env.cfg.fluxNamespace, repo, accurate);
    NothingReplayed(w.mcps);
    if p.writes != [] || p.world.mcps != w.mcps {
      var gr := w.onboarding.repos[repo];
      var (requests, targets) := Targets(w, repo, gr, env, calls);
      if gr.deleting {
        CleanAllMoves(requests, w.mcps, env, repo, targets.value, calls, n, c, accurate);
      } else {
        VisitAllMoves(w.mcps, env.cfg, repo, gr.spec.source, targets.value, now, calls.targets, n, c);
        if !accurate {
          MovesAnyhow(McpAt(w.mcps, c), McpAt(McpsAfter(w, p, done), c), env.cfg.fluxNamespace, repo);
        }
      }
    }
  }

  lemma NothingReplayed(mcps: map<ObjectKey, Mcp>)
    ensures Replay(mcps, []) == mcps
  {
  }

  // ---- Runs ----

  /** A pass; a pass whose process dies after the first `done` of its writes to MCPs; and anything
      others do, including what such a pass may have left in the other stores. */
  datatype SystemEvent =
    | RepoPass(repo: ObjectKey, now: Instant, calls: PassCalls)
    | CutPass(repo: ObjectKey, now: Instant, calls: PassCalls, done: nat)
    | Change(world: World)

  function WorldNext(w: World, env: Env, ev: SystemEvent): World {
    match ev
    case RepoPass(repo, now, calls) => ReconcilePass(w, repo, env, now, calls).world
    case CutPass(repo, now, calls, done) => w.(mcps := McpsAfter(w, ReconcilePass(w, repo, env, now, calls), done))
    case Change(world) => world
  }

  function WorldAfter(w: World, env: Env, events: seq<SystemEvent>): World
    decreases |events|
  {
    if events == [] then w else WorldAfter(WorldNext(w, env, events[0]), env, events[1..])
  }

  /** One event that is a pass, complete or cut short. */
  lemma EventMoves(w: World, env: Env, ev: SystemEvent, c: ObjectKey, accurate: bool)
    requires !ev.Change? && (accurate ==> CleanupReads(ev.calls))
    ensures Moves(McpAt(w.mcps, c), McpAt(WorldNext(w, env, ev).mcps, c), env.cfg.fluxNamespace, ev.repo, accurate)
  {
    hide ReconcilePass, Moves, CleanupReads, Replay;
    var p := ReconcilePass(w, ev.repo, env, ev.now, ev.calls);
    PassMoves(w, ev.repo, env, ev.now, ev.calls, if ev.CutPass? then ev.done else |p.writes|, c, accurate);
    assert p.writes[..|p.writes|] == p.writes;
  }

  function FluxAt(w: World, c: ObjectKey, k: ObjectKey): Option<FluxRepository> {
    Lookup(McpAt(w.mcps, c).flux, k)
  }

  /** No pass of the GitRepository with managed-by value `owner`, and others leave the object alone. */
  predicate NotByOwner(w: World, env: Env, events: seq<SystemEvent>, c: ObjectKey, k: ObjectKey, owner: string)
    decreases |events|
  {
    events == [] ||
    (var ev := events[0];
     && (!ev.Change? ==> SlashKey(ev.repo) != owner)
     && (ev.Change? ==> FluxAt(ev.world, c, k) == FluxAt(w, c, k))
     && NotByOwner(WorldNext(w, env, ev), env, events[1..], c, k, owner))
  }

  /** A Flux object is safe from all passes of all GitRepositories that it does not name as owner,
      in every MCP and over every run. */
  lemma {:induction false} ForeignFluxSafe(w: World, env: Env, events: seq<SystemEvent>, c: ObjectKey, k: ObjectKey)
    requires FluxAt(w, c, k).Some? && NotByOwner(w, env, events, c, k, OwnerOf(FluxAt(w, c, k).value))
    ensures FluxAt(WorldAfter(w, env, events), c, k) == FluxAt(w, c, k)
    decreases |events|
  {
    if events == [] {
    } else {
      hide ReconcilePass;
      var ev := events[0];
      if !ev.Change? {
        var ns := env.cfg.fluxNamespace;
        EventMoves(w, env, ev, c, false);
        var steps :| StepsOf(steps, ev.repo, false)
                  && AfterSteps(McpAt(w.mcps, c), ns, steps) == McpAt(WorldNext(w, env, ev).mcps, c);
        ForeignFluxUntouched(McpAt(w.mcps, c), ns, steps, k);
      }
      ForeignFluxSafe(WorldNext(w, env, ev), env, events[1..], c, k);
    }
  }

  /** One GitRepository of its name, whose cleanups read accurately; nobody else writes its two objects. */
  ghost predicate OneOfItsName(w: World, env: Env, events: seq<SystemEvent>, c: ObjectKey, repo: ObjectKey)
    decreases |events|
  {
    events == [] ||
    (var ev, ns := events[0], env.cfg.fluxNamespace;
     && (!ev.Change? && ev.repo.name == repo.name ==> ev.repo == repo && CleanupReads(ev.calls))
     && (ev.Change? ==>
           && FluxAt(ev.world, c, FluxKey(ns, repo)) == FluxAt(w, c, FluxKey(ns, repo))
           && Lookup(McpAt(ev.world.mcps, c).secrets, SecretKey(ns, repo))
              == Lookup(McpAt(w.mcps, c).secrets, SecretKey(ns, repo)))
     && OneOfItsName(WorldNext(w, env, ev), env, events[1..], c, repo))
  }

  lemma OwnEventUndisturbed(st: Mcp, ns: string, actor: ObjectKey, ev: Event, repo: ObjectKey)
    requires !ev.Outside? && ev.repo == actor && (actor.name == repo.name ==> actor == repo)
    requires actor.name == repo.name && ev.CleanupPass? ==> ev.cleanup.fluxRead
    ensures Undisturbed(st, ns, repo, ev)
  {
  }

  lemma {:induction false} OwnStepsUndisturbed(st: Mcp, ns: string, actor: ObjectKey, steps: seq<Step>, repo: ObjectKey)
    requires StepsOf(steps, actor, actor.name == repo.name)
    requires actor.name == repo.name ==> actor == repo
    ensures AllUndisturbed(st, ns, repo, steps)
    decreases |steps|
  {
    if steps == [] {
    } else {
      hide Next, Undisturbed;
      assert steps == [steps[0]] + steps[1..];
      OwnEventUndisturbed(st, ns, actor, steps[0].event, repo);
      OwnStepsUndisturbed(Next(st, ns, steps[0]), ns, actor, steps[1..], repo);
    }
  }

  lemma EventKeepsIntegrity(w: World, env: Env, ev: SystemEvent, c: ObjectKey, repo: ObjectKey)
    requires !ev.Change? && (ev.repo.name == repo.name ==> ev.repo == repo && CleanupReads(ev.calls))
    requires Integrity(McpAt(w.mcps, c), env.cfg.fluxNamespace, repo)
    ensures Integrity(McpAt(WorldNext(w, env, ev).mcps, c), env.cfg.fluxNamespace, repo)
  {
    hide WorldNext, Integrity, AllUndisturbed, CleanupReads;
    var ns, accurate := env.cfg.fluxNamespace, ev.repo.name == repo.name;
    EventMoves(w, env, ev, c, accurate);
    var steps :| StepsOf(steps, ev.repo, accurate)
              && AfterSteps(McpAt(w.mcps, c), ns, steps) == McpAt(WorldNext(w, env, ev).mcps, c);
    OwnStepsUndisturbed(McpAt(w.mcps, c), ns, ev.repo, steps, repo);
    IntegrityAlways(McpAt(w.mcps, c), ns, repo, steps);
  }

  /** Referential integrity over every run of the system, with processes dying between any two
      writes of a pass: in each MCP an owned Flux object points at a token Secret that exists. */
  lemma {:induction false} IntegrityOverRuns(w: World, env: Env, events: seq<SystemEvent>, c: ObjectKey,
                                             repo: ObjectKey)
    requires Integrity(McpAt(w.mcps, c), env.cfg.fluxNamespace, repo) && OneOfItsName(w, env, events, c, repo)
    ensures Integrity(McpAt(WorldAfter(w, env, events).mcps, c), env.cfg.fluxNamespace, repo)
    decreases |events|
  {
    if events == [] {
    } else {
      hide WorldNext, CleanupReads;
      var ev := events[0];
      if ev.Change? {
        assert WorldNext(w, env, ev) == ev.world by { ChangeIs(w, env, ev); }
      } else {
        EventKeepsIntegrity(w, env, ev, c, repo);
      }
      IntegrityOverRuns(WorldNext(w, env, ev), env, events[1..], c, repo);
    }
  }

  lemma ChangeIs(w: World, env: Env, ev: SystemEvent)
    requires ev.Change?
    ensures WorldNext(w, env, ev) == ev.world
  {
  }
}
