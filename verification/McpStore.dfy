/**
 The managed control planes (MCPs) as API servers holding Secrets and Flux GitRepositories, and
 what can become of a single API call: a read is answered or fails, a write is applied, lost,
 or applied although the caller is told that it failed.
 */
module McpStore {
  import opened Wrappers
  import opened GoTime
  import opened Names

  datatype Secret = Secret(annotations: map<string, string>, data: map<string, string>, kind: string)

  datatype GitRef = GitRef(branch: string, tag: string, commit: string)

  datatype FluxSpec = FluxSpec(url: string, interval: Duration, secretRef: Option<string>, reference: Option<GitRef>)

  datatype FluxRepository = FluxRepository(annotations: map<string, string>, spec: FluxSpec)

  /** The contents of one MCP. */
  datatype Mcp = Mcp(secrets: map<ObjectKey, Secret>, flux: map<ObjectKey, FluxRepository>)

  datatype Write =
    | PutSecret(key: ObjectKey, secret: Secret)
    | PutFlux(key: ObjectKey, flux: FluxRepository)
    | DeleteSecret(key: ObjectKey)
    | DeleteFlux(key: ObjectKey)

  function Apply(st: Mcp, w: Write): Mcp {
    match w
    case PutSecret(k, s) => st.(secrets := st.secrets[k := s])
    case PutFlux(k, f) => st.(flux := st.flux[k := f])
    case DeleteSecret(k) => st.(secrets := st.secrets - {k})
    case DeleteFlux(k) => st.(flux := st.flux - {k})
  }

  function ApplyAll(st: Mcp, ws: seq<Write>): Mcp
    decreases |ws|
  {
    if ws == [] then st else ApplyAll(Apply(st, ws[0]), ws[1..])
  }

  lemma {:induction false} ApplyAllConcat(st: Mcp, us: seq<Write>, ws: seq<Write>)
    ensures ApplyAll(st, us + ws) == ApplyAll(ApplyAll(st, us), ws)
    decreases |us|
  {
    if us == [] {
      assert us + ws == ws;
    } else {
      ApplyAllConcat(Apply(st, us[0]), us[1..], ws);
      assert (us + ws)[1..] == us[1..] + ws;
    }
  }

  // ---- API calls ----

  datatype ReadError = NotFound | ReadFailed

  datatype WriteOutcome = Applied | Lost | AppliedButFailed

  /** What a write leaves behind. */
  function Effect(w: Write, o: WriteOutcome): seq<Write> {
    if o == Lost then [] else [w]
  }

  function Read<V>(objects: map<ObjectKey, V>, key: ObjectKey, answered: bool): Result<V, ReadError> {
    if !answered then Err(ReadFailed) else if key in objects then Ok(objects[key]) else Err(NotFound)
  }

  predicate Exists(st: Mcp, w: Write) {
    if w.PutSecret? || w.DeleteSecret? then w.key in st.secrets else w.key in st.flux
  }

  function McpAt(mcps: map<ObjectKey, Mcp>, c: ObjectKey): Mcp {
    if c in mcps then mcps[c] else Mcp(map[], map[])
  }

  /** The MCPs after `ws` happened in the one called `c`. */
  function Commit(mcps: map<ObjectKey, Mcp>, c: ObjectKey, ws: seq<Write>): map<ObjectKey, Mcp> {
    if ws == [] then mcps else mcps[c := ApplyAll(McpAt(mcps, c), ws)]
  }

  lemma CommitConcat(mcps: map<ObjectKey, Mcp>, c: ObjectKey, us: seq<Write>, ws: seq<Write>)
    ensures Commit(mcps, c, us + ws) == Commit(Commit(mcps, c, us), c, ws)
    ensures Tag(c, us + ws) == Tag(c, us) + Tag(c, ws)
  {
    ApplyAllConcat(McpAt(mcps, c), us, ws);
    assert ws == [] ==> us + ws == us;
    assert us == [] ==> us + ws == ws;
  }

  lemma CommitOne(mcps: map<ObjectKey, Mcp>, c: ObjectKey, w: Write)
    ensures Commit(mcps, c, [w]) == mcps[c := Apply(McpAt(mcps, c), w)]
  {
    assert ApplyAll(Apply(McpAt(mcps, c), w), [w][1..]) == Apply(McpAt(mcps, c), w);
  }

  /** Writes that took effect, each with the MCP it happened in. */
  type Log = seq<(ObjectKey, Write)>

  function Tag(c: ObjectKey, ws: seq<Write>): (log: Log)
    ensures |log| == |ws|
  {
    seq(|ws|, i requires 0 <= i < |ws| => (c, ws[i]))
  }

  /** The MCPs after everything in the log. */
  function Replay(mcps: map<ObjectKey, Mcp>, log: Log): map<ObjectKey, Mcp> {
    if log == [] then mcps
    else
      var before, last := Replay(mcps, log[..|log| - 1]), log[|log| - 1];
      Commit(before, last.0, [last.1])
  }

  lemma {:induction false} ReplayConcat(mcps: map<ObjectKey, Mcp>, a: Log, b: Log)
    ensures Replay(mcps, a + b) == Replay(Replay(mcps, a), b)
  {
    if b == [] {
      assert a + b == a;
    } else {
      ReplayConcat(mcps, a, b[..|b| - 1]);
      assert (a + b)[..|a + b| - 1] == a + b[..|b| - 1];
    }
  }

  lemma {:induction false} ReplayTagged(mcps: map<ObjectKey, Mcp>, c: ObjectKey, ws: seq<Write>)
    ensures Replay(mcps, Tag(c, ws)) == Commit(mcps, c, ws)
  {
    if ws == [] {
    } else {
      var front := ws[..|ws| - 1];
      ReplayTagged(mcps, c, front);
      assert Tag(c, ws)[..|ws| - 1] == Tag(c, front);
      assert ws == front + [ws[|ws| - 1]];
      CommitConcat(mcps, c, front, [ws[|ws| - 1]]);
    }
  }

  /** All MCPs, each reached through the cluster its AccessRequest names. `log` keeps every write
      that took effect, in order, so that what happens between two calls can be stated. */
  class Fleet {
    var mcps: map<ObjectKey, Mcp>
    ghost var log: Log

    constructor (mcps: map<ObjectKey, Mcp>)
      ensures this.mcps == mcps && log == []
    {
      this.mcps := mcps;
      log := [];
    }

    function At(c: ObjectKey): Mcp
      reads this
    {
      McpAt(mcps, c)
    }

    method GetSecret(c: ObjectKey, key: ObjectKey, answered: bool) returns (r: Result<Secret, ReadError>)
      ensures r == Read(At(c).secrets, key, answered)
    {
      r := Read(At(c).secrets, key, answered);
    }

    method GetFlux(c: ObjectKey, key: ObjectKey, answered: bool) returns (r: Result<FluxRepository, ReadError>)
      ensures r == Read(At(c).flux, key, answered)
    {
      r := Read(At(c).flux, key, answered);
    }

    /** The common part of Create, Update and Delete. */
    method Send(c: ObjectKey, w: Write, o: WriteOutcome) returns (ok: bool)
      modifies this
      ensures ok <==> o == Applied
      ensures mcps == Commit(old(mcps), c, Effect(w, o))
      ensures log == old(log) + Tag(c, Effect(w, o))
    {
      CommitOne(mcps, c, w);
      if o != Lost {
        mcps := mcps[c := Apply(At(c), w)];
        log := log + [(c, w)];
      }
      ok := o == Applied;
    }

    method Create(c: ObjectKey, w: Write, o: WriteOutcome) returns (ok: bool)
      requires (w.PutSecret? || w.PutFlux?) && !Exists(At(c), w)
      modifies this
      ensures ok <==> o == Applied
      ensures mcps == Commit(old(mcps), c, Effect(w, o))
      ensures log == old(log) + Tag(c, Effect(w, o))
    {
      ok := Send(c, w, o);
    }

    method Update(c: ObjectKey, w: Write, o: WriteOutcome) returns (ok: bool)
      requires (w.PutSecret? || w.PutFlux?) && Exists(At(c), w)
      modifies this
      ensures ok <==> o == Applied
      ensures mcps == Commit(old(mcps), c, Effect(w, o))
      ensures log == old(log) + Tag(c, Effect(w, o))
    {
      ok := Send(c, w, o);
    }

    method Delete(c: ObjectKey, w: Write, o: WriteOutcome) returns (ok: bool)
      requires (w.DeleteSecret? || w.DeleteFlux?) && Exists(At(c), w)
      modifies this
      ensures ok <==> o == Applied
      ensures mcps == Commit(old(mcps), c, Effect(w, o))
      ensures log == old(log) + Tag(c, Effect(w, o))
    {
      ok := Send(c, w, o);
    }
  }
}
