/** internal/controller/github, AppInstallation: the state machine that produces the installation ID. */
module AppInstallations {
  import opened Wrappers
  import opened McpStore
  import opened GitHubInstances

  const COND_APP_INSTALLED := "AppInstalled"
  const COND_ACCESS_VERIFIED := "AccessVerified"
  const REASON_APP_FOUND := "AppFound"
  const REASON_APP_NOT_FOUND := "AppNotInstalled"
  const REASON_ACCESS_OK := "AccessVerified"
  const REASON_ACCESS_DENIED := "AccessDenied"
  const REASON_INVALID_SPEC := "InvalidSpec"
  const REASON_INSTANCE_ERROR := "InstanceResolutionFailed"

  type Conditions = map<string, Condition>

  datatype AppStatus = AppStatus(installationID: int, conditions: Conditions)

  datatype AppSpec = AppSpec(org: string, user: string, generation: int)

  /** GitHub's answer to the installation check. */
  datatype Check = CheckFailed | NotInstalled | Installed(id: int)

  /** What a pass finds: do the credentials resolve, can a client be built, does the App
      authenticate, and is it installed? */
  datatype Findings = Findings(credentials: bool, client: bool, verified: bool, check: Check)

  /** The check was reached and answered. */
  predicate Answered(spec: AppSpec, f: Findings) {
    && (spec.org == "") != (spec.user == "")
    && f.credentials && f.client && f.verified && f.check != CheckFailed
  }

  function SetOne(c: Conditions, kind: string, status: ConditionStatus, reason: string, generation: int): Conditions {
    c[kind := Condition(status, reason, generation)]
  }

  function SetBoth(c: Conditions, reason: string, generation: int): Conditions {
    SetOne(SetOne(c, COND_APP_INSTALLED, False, reason, generation), COND_ACCESS_VERIFIED, False, reason, generation)
  }

  function AfterPass(s: AppStatus, spec: AppSpec, f: Findings): AppStatus {
    var g := spec.generation;
    if (spec.org == "") == (spec.user == "") then s.(conditions := SetBoth(s.conditions, REASON_INVALID_SPEC, g))
    else if !f.credentials then s.(conditions := SetBoth(s.conditions, REASON_INSTANCE_ERROR, g))
    else if !f.client || !f.verified then s.(conditions := SetBoth(s.conditions, REASON_ACCESS_DENIED, g))
    else
      var verified := SetOne(s.conditions, COND_ACCESS_VERIFIED, True, REASON_ACCESS_OK, g);
      match f.check
      case CheckFailed => s.(conditions := SetOne(verified, COND_APP_INSTALLED, Unknown, REASON_APP_NOT_FOUND, g))
      case NotInstalled => AppStatus(0, SetOne(verified, COND_APP_INSTALLED, False, REASON_APP_NOT_FOUND, g))
      case Installed(id) => AppStatus(id, SetOne(verified, COND_APP_INSTALLED, True, REASON_APP_FOUND, g))
  }

  /** The object a pass has read and changes before it patches the stored one. */
  class AppInstallation {
    const spec: AppSpec
    var installationID: int
    var conditions: Conditions

    constructor (spec: AppSpec, stored: AppStatus)
      ensures this.spec == spec && Status() == stored
    {
      this.spec := spec;
      installationID := stored.installationID;
      conditions := stored.conditions;
    }

    function Status(): AppStatus
      reads this
    {
      AppStatus(installationID, conditions)
    }

    method Set(kind: string, status: ConditionStatus, reason: string)
      modifies this`conditions
      ensures conditions == SetOne(old(conditions), kind, status, reason, spec.generation)
    {
      conditions := conditions[kind := Condition(status, reason, spec.generation)];
    }

    method SetBothFalse(reason: string)
      modifies this`conditions
      ensures conditions == SetBoth(old(conditions), reason, spec.generation)
    {
      Set(COND_APP_INSTALLED, False, reason);
      Set(COND_ACCESS_VERIFIED, False, reason);
    }

    /** reconcile; the result says whether the object is looked at again after the interval. */
    method Reconcile(f: Findings) returns (requeue: bool)
      modifies this
      ensures Status() == AfterPass(old(Status()), spec, f)
      ensures requeue <==> (spec.org == "") != (spec.user == "")
    {
      if (spec.org == "") == (spec.user == "") {
        SetBothFalse(REASON_INVALID_SPEC);
        return false;
      }
      if !f.credentials {
        SetBothFalse(REASON_INSTANCE_ERROR);
        return true;
      }
      if !f.client || !f.verified {
        SetBothFalse(REASON_ACCESS_DENIED);
        return true;
      }
      Set(COND_ACCESS_VERIFIED, True, REASON_ACCESS_OK);
      match f.check {
        case CheckFailed =>
          Set(COND_APP_INSTALLED, Unknown, REASON_APP_NOT_FOUND);
        case NotInstalled =>
          installationID := 0;
          Set(COND_APP_INSTALLED, False, REASON_APP_NOT_FOUND);
        case Installed(id) =>
          installationID := id;
          Set(COND_APP_INSTALLED, True, REASON_APP_FOUND);
      }
      requeue := true;
    }
  }

  predicate IsTrue(c: Conditions, kind: string) {
    kind in c && c[kind].status == True
  }

  // ---- Persisted passes in any order ----

  /** A pass, and what becomes of its patch. */
  datatype Pass = Pass(spec: AppSpec, findings: Findings, patch: WriteOutcome)

  function AfterPatch(s: AppStatus, p: Pass): AppStatus {
    if p.patch == Lost then s else AfterPass(s, p.spec, p.findings)
  }

  function AfterPasses(s: AppStatus, ps: seq<Pass>): AppStatus {
    if ps == [] then s else AfterPatch(AfterPasses(s, ps[..|ps| - 1]), ps[|ps| - 1])
  }

  function LastPersisted(ps: seq<Pass>): Option<Pass> {
    if ps == [] then None
    else if ps[|ps| - 1].patch != Lost then Some(ps[|ps| - 1])
    else LastPersisted(ps[..|ps| - 1])
  }

  const NEW_STATUS := AppStatus(0, map[])

  /** In every reachable state, AppInstalled=True means that the stored ID is the one GitHub gave
      in the last persisted pass, and conversely such an answer is what the condition shows. */
  lemma {:induction false} InstalledMeansCurrentID(ps: seq<Pass>)
    ensures var s, last := AfterPasses(NEW_STATUS, ps), LastPersisted(ps);
      IsTrue(s.conditions, COND_APP_INSTALLED)
      <==> last.Some? && Answered(last.value.spec, last.value.findings)
           && last.value.findings.check == Installed(s.installationID)
  {
    if ps == [] {
    } else {
      InstalledMeansCurrentID(ps[..|ps| - 1]);
    }
  }

  // ---- What a pass shows, by what it finds ----

  /** The stored ID is GitHub's answer, 0 if the App is not installed, and what it was without an answer. */
  lemma StoredID(s: AppStatus, spec: AppSpec, f: Findings)
    ensures AfterPass(s, spec, f).installationID
         == if !Answered(spec, f) then s.installationID else if f.check.Installed? then f.check.id else 0
  {
  }

  /** Access is verified exactly if everything up to authenticating as the App succeeds; the App is shown as
      installed if GitHub says so, as unknown if only the check fails, and as not installed otherwise; and
      each cause has its reason. Other conditions stay. */
  lemma ShownConditions(s: AppStatus, spec: AppSpec, f: Findings)
    ensures var c := AfterPass(s, spec, f).conditions;
      var wellFormed := (spec.org == "") != (spec.user == "");
      var access := wellFormed && f.credentials && f.client && f.verified;
      && "AppInstalled" in c && "AccessVerified" in c
      && c["AccessVerified"].status == (if access then True else False)
      && c["AppInstalled"].status
         == (if access && f.check.Installed? then True else if access && f.check.CheckFailed? then Unknown else False)
      && c["AccessVerified"].reason
         == (if !wellFormed then "InvalidSpec" else if !f.credentials then "InstanceResolutionFailed"
             else if !access then "AccessDenied" else "AccessVerified")
      && c["AppInstalled"].reason
         == (if !access then c["AccessVerified"].reason
             else if f.check.Installed? then "AppFound" else "AppNotInstalled")
      && c["AccessVerified"].observedGeneration == spec.generation == c["AppInstalled"].observedGeneration
      && c - {"AppInstalled", "AccessVerified"} == s.conditions - {"AppInstalled", "AccessVerified"}
  {
    assert "AppInstalled"[1] != "AccessVerified"[1];
  }
}
