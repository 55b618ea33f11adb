/** internal/controller/github, GitHubInstance: are all credential Secrets present and well-formed? */
module GitHubInstances {
  import opened Wrappers
  import opened GoTime
  import opened Names
  import opened McpStore
  import opened Controller
  import opened PlatformStore
  import opened Credentials

  datatype ConditionStatus = True | False | Unknown

  datatype Condition = Condition(status: ConditionStatus, reason: string, observedGeneration: int)

  datatype Verdict = Verdict(status: ConditionStatus, reason: string)

  const COND_READY := "Ready"
  const SECRETS_VALID := Verdict(True, "SecretsValid")
  const SECRET_NOT_FOUND := Verdict(False, "SecretNotFound")
  const SECRET_MALFORMED := Verdict(False, "SecretMalformed")
  const SECRET_READ_ERROR := Verdict(Unknown, "SecretReadError")

  /** What a Secret that does not load is reported as. */
  function Complaint(e: CredentialError): Verdict {
    match e
    case SecretNotFound => SECRET_NOT_FOUND
    case SecretReadFailed => SECRET_READ_ERROR
    case _ => SECRET_MALFORMED
  }

  predicate Loads(snap: Snapshot, ref: SecretReference, ns: string) {
    Load(snap, ref, ns).Ok?
  }

  ghost predicate Ready(snap: Snapshot, refs: seq<SecretReference>, ns: string) {
    forall i :: 0 <= i < |refs| ==> Loads(snap, refs[i], ns)
  }

  /** The complaint about the first reference, in list order, that does not load. */
  function VerdictOf(snap: Snapshot, refs: seq<SecretReference>, ns: string): Verdict {
    if refs == [] then SECRETS_VALID
    else if Loads(snap, refs[0], ns) then VerdictOf(snap, refs[1..], ns)
    else Complaint(Load(snap, refs[0], ns).error)
  }

  lemma {:induction false} VerdictMeaning(snap: Snapshot, refs: seq<SecretReference>, ns: string)
    ensures VerdictOf(snap, refs, ns) == SECRETS_VALID <==> Ready(snap, refs, ns)
    ensures VerdictOf(snap, refs, ns).status == True <==> Ready(snap, refs, ns)
    ensures VerdictOf(snap, refs, ns) != SECRETS_VALID ==>
      exists i :: 0 <= i < |refs| && !Loads(snap, refs[i], ns)
               && VerdictOf(snap, refs, ns) == Complaint(Load(snap, refs[i], ns).error)
               && forall j :: 0 <= j < i ==> Loads(snap, refs[j], ns)
  {
    if refs == [] {
    } else {
      var rest := refs[1..];
      VerdictMeaning(snap, rest, ns);
      assert forall i :: 0 <= i < |rest| ==> rest[i] == refs[i + 1];
      if Loads(snap, refs[0], ns) && VerdictOf(snap, rest, ns) != SECRETS_VALID {
        var i :| 0 <= i < |rest| && !Loads(snap, rest[i], ns)
              && VerdictOf(snap, rest, ns) == Complaint(Load(snap, rest[i], ns).error)
              && forall j :: 0 <= j < i ==> Loads(snap, rest[j], ns);
        assert forall j :: 1 <= j < i + 1 ==> refs[j] == rest[j - 1];
        assert !Loads(snap, refs[i + 1], ns);
      }
    }
  }

  /** Where a Secret is looked up. */
  function KeyOf(ref: SecretReference, ns: string): ObjectKey {
    ObjectKey(if |ref.namespace| > 0 then ref.namespace else ns, ref.name)
  }

  /** The verdict by what the reads find at the first reference that does not load: unknown if it cannot be
      read, otherwise false, with a reason for each of the two causes. */
  lemma VerdictByCause(snap: Snapshot, refs: seq<SecretReference>, ns: string, i: nat)
    requires i < |refs| && !Loads(snap, refs[i], ns) && forall j :: 0 <= j < i ==> Loads(snap, refs[j], ns)
    ensures var key := KeyOf(refs[i], ns);
      VerdictOf(snap, refs, ns)
      == if !snap.secretRead(key) then Verdict(Unknown, "SecretReadError")
         else if key !in snap.store.secrets then Verdict(False, "SecretNotFound")
         else Verdict(False, "SecretMalformed")
    ensures forall all: seq<SecretReference> :: Ready(snap, all, ns) ==>
      VerdictOf(snap, all, ns) == Verdict(True, "SecretsValid")
  {
    hide FromSecret;
    LoadMeaning(snap, refs[i], ns);
    if i > 0 {
      assert forall j :: 0 <= j < |refs[1..]| ==> refs[1..][j] == refs[j + 1];
      VerdictByCause(snap, refs[1..], ns, i - 1);
    }
    forall all: seq<SecretReference> | Ready(snap, all, ns)
      ensures VerdictOf(snap, all, ns) == Verdict(True, "SecretsValid")
    {
      VerdictMeaning(snap, all, ns);
    }
  }

  datatype InstanceStatus = InstanceStatus(conditions: map<string, Condition>, observedGeneration: int)

  datatype Instance = Instance(refs: seq<SecretReference>, generation: int, status: InstanceStatus)

  function Checked(inst: Instance, snap: Snapshot, ns: string): Instance {
    var v := VerdictOf(snap, inst.refs, ns);
    inst.(status := InstanceStatus(inst.status.conditions[COND_READY := Condition(v.status, v.reason, inst.generation)],
                                   inst.generation))
  }

  /** What is stored: the verdict as the Ready condition, at the generation that was looked at; other
      conditions and the spec stay. */
  lemma CheckedMeaning(inst: Instance, snap: Snapshot, ns: string)
    ensures var v, after := VerdictOf(snap, inst.refs, ns), Checked(inst, snap, ns);
      && "Ready" in after.status.conditions
      && after.status.conditions["Ready"].status == v.status && after.status.conditions["Ready"].reason == v.reason
      && after.status.conditions["Ready"].observedGeneration == inst.generation
      && after.status.observedGeneration == inst.generation
      && after.status.conditions - {"Ready"} == inst.status.conditions - {"Ready"}
      && after.refs == inst.refs && after.generation == inst.generation
  {
  }

  /** The platform cluster's GitHubInstances and their reconciler. */
  class InstanceReconciler {
    var instances: map<string, Instance>
    const credentialNamespace: string

    constructor (instances: map<string, Instance>, credentialNamespace: string)
      ensures this.instances == instances && this.credentialNamespace == credentialNamespace
    {
      this.instances := instances;
      this.credentialNamespace := credentialNamespace;
    }

    /** The loop over the references, left at the first one that does not load. */
    method Validate(snap: Snapshot, refs: seq<SecretReference>) returns (v: Verdict)
      ensures v == VerdictOf(snap, refs, credentialNamespace)
    {
      v := SECRETS_VALID;
      assert refs[0..] == refs;
      for i := 0 to |refs|
        invariant v == SECRETS_VALID
        invariant VerdictOf(snap, refs, credentialNamespace) == VerdictOf(snap, refs[i..], credentialNamespace)
      {
        assert refs[i..][1..] == refs[i + 1..];
        var loaded := Load(snap, refs[i], credentialNamespace);
        if loaded.Err? {
          return Complaint(loaded.error);
        }
      }
    }

    /** One pass, with the outcome of its first read and of its status patch. */
    method Reconcile(name: string, answered: bool, snap: Snapshot, patch: WriteOutcome) returns (r: PassResult)
      modifies this
      ensures !answered ==> r == PassResult(NoRequeue, true)
      ensures answered && name !in old(instances) ==> r == PassResult(NoRequeue, false)
      ensures answered && name in old(instances) ==>
        r == if patch == Applied then PassResult(After(REQUEUE_INTERVAL), false) else PassResult(NoRequeue, true)
      ensures instances
           == if answered && name in old(instances) && patch != Lost
              then old(instances)[name := Checked(old(instances)[name], snap, credentialNamespace)]
              else old(instances)
    {
      if !answered {
        return PassResult(NoRequeue, true);
      }
      if name !in instances {
        return PassResult(NoRequeue, false);
      }
      var inst := instances[name];
      var v := Validate(snap, inst.refs);
      var conditions := inst.status.conditions[COND_READY := Condition(v.status, v.reason, inst.generation)];
      if patch != Lost {
        instances := instances[name := inst.(status := InstanceStatus(conditions, inst.generation))];
      }
      if patch != Applied {
        return PassResult(NoRequeue, true);
      }
      r := PassResult(After(REQUEUE_INTERVAL), false);
    }
  }

  // ---- Persisted passes in any order ----

  /** A pass that finds the instance: its spec by then, what the pass sees, and what becomes of its patch. */
  datatype InstancePass = InstancePass(refs: seq<SecretReference>, generation: int, snap: Snapshot, patch: WriteOutcome)

  function AfterInstancePasses(s: InstanceStatus, ns: string, ps: seq<InstancePass>): InstanceStatus {
    if ps == [] then s
    else
      var before, p := AfterInstancePasses(s, ns, ps[..|ps| - 1]), ps[|ps| - 1];
      if p.patch == Lost then before else Checked(Instance(p.refs, p.generation, before), p.snap, ns).status
  }

  function LastPersisted(ps: seq<InstancePass>): Option<InstancePass> {
    if ps == [] then None
    else if ps[|ps| - 1].patch != Lost then Some(ps[|ps| - 1])
    else LastPersisted(ps[..|ps| - 1])
  }

  const NEW_INSTANCE_STATUS := InstanceStatus(map[], 0)

  predicate ShownReady(s: InstanceStatus) {
    COND_READY in s.conditions && s.conditions[COND_READY].status == True
  }

  /** In every reachable state an instance is shown as ready exactly if all its references loaded in the
      last persisted pass, and then, on what that pass saw, credentials resolve for each listed name
      and, if there is just one, for the empty name. */
  lemma {:induction false} ShownReadyExactly(ns: string, ps: seq<InstancePass>, name: string)
    ensures var last := LastPersisted(ps);
      && (ShownReady(AfterInstancePasses(NEW_INSTANCE_STATUS, ns, ps)) <==>
            last.Some? && Ready(last.value.snap, last.value.refs, ns))
      && (ShownReady(AfterInstancePasses(NEW_INSTANCE_STATUS, ns, ps)) && SeenBy(last.value, name) ==>
            && (forall ref :: ref in last.value.refs && ref.name != "" ==>
                  Resolve(last.value.snap, name, ref.name, ns).Ok?)
            && (|last.value.refs| == 1 ==> Resolve(last.value.snap, name, "", ns).Ok?))
  {
    hide VerdictOf, Resolve, Loads;
    if ps == [] {
    } else {
      ShownReadyExactly(ns, ps[..|ps| - 1], name);
      var p := ps[|ps| - 1];
      VerdictMeaning(p.snap, p.refs, ns);
      if SeenBy(p, name) && Ready(p.snap, p.refs, ns) {
        ReadyResolves(p.snap, name, ns);
      }
    }
  }

  /** The instance read by the pass is what the snapshot holds under the name. */
  predicate SeenBy(p: InstancePass, name: string) {
    p.snap.instanceRead && name in p.snap.store.instances && p.snap.store.instances[name] == p.refs
  }

  /** A ready instance can be used: on the same snapshot every listed credential name resolves,
      and so does the empty name if there is just one reference. */
  lemma ReadyResolves(snap: Snapshot, name: string, ns: string)
    requires snap.instanceRead && name in snap.store.instances
    requires Ready(snap, snap.store.instances[name], ns)
    ensures forall ref :: ref in snap.store.instances[name] && ref.name != "" ==> Resolve(snap, name, ref.name, ns).Ok?
    ensures |snap.store.instances[name]| == 1 ==> Resolve(snap, name, "", ns).Ok?
  {
    var refs := snap.store.instances[name];
    forall ref | ref in refs && ref.name != ""
      ensures Resolve(snap, name, ref.name, ns).Ok?
    {
      FirstNamedIsFirst(refs, ref.name);
      var i :| 0 <= i < |refs| && refs[i] == FirstNamed(refs, ref.name).value;
      assert Loads(snap, refs[i], ns);
    }
    assert |refs| == 1 ==> Loads(snap, refs[0], ns);
  }

  /** Only the first reference of a name is ever used. Where names are not repeated, being ready
      is the same as every listed name resolving. */
  lemma ReadyExactly(snap: Snapshot, name: string, ns: string)
    requires snap.instanceRead && name in snap.store.instances
    requires forall ref :: ref in snap.store.instances[name] ==> ref.name != ""
    requires forall i, j :: 0 <= i < j < |snap.store.instances[name]| ==>
      snap.store.instances[name][i].name != snap.store.instances[name][j].name
    ensures Ready(snap, snap.store.instances[name], ns)
       <==> forall ref :: ref in snap.store.instances[name] ==> Resolve(snap, name, ref.name, ns).Ok?
  {
    hide FromSecret;
    var refs := snap.store.instances[name];
    if Ready(snap, refs, ns) {
      ReadyResolves(snap, name, ns);
    }
    if forall ref :: ref in refs ==> Resolve(snap, name, ref.name, ns).Ok? {
      forall i | 0 <= i < |refs|
        ensures Loads(snap, refs[i], ns)
      {
        FirstNamedIsFirst(refs, refs[i].name);
        assert FirstNamed(refs, refs[i].name).value == refs[i];
        assert Resolve(snap, name, refs[i].name, ns).Ok?;
      }
    }
  }
}
