/** internal/credentials: GitHub App credentials from a GitHubInstance and one of its Secrets. */
module Credentials {
  import opened Wrappers
  import opened Names
  import opened PlatformStore

  datatype AppCredentials = AppCredentials(appID: int, privateKey: string, url: string)

  datatype CredentialError =
    | InstanceNotFound
    | InstanceReadFailed
    | NameRequired
    | NameNotListed
    | SecretNotFound
    | SecretReadFailed
    | MissingKey(key: string)
    | InvalidAppID

  const KEY_APP_ID := "appID"
  const KEY_PRIVATE_KEY := "privateKey"
  const KEY_URL := "url"

  /** Which reads are answered; `parseInt` stands for strconv.ParseInt(s, 10, 64). */
  datatype Snapshot = Snapshot(
    store: CredentialStore,
    instanceRead: bool,
    secretRead: ObjectKey -> bool,
    parseInt: string -> Option<int>)

  function FromSecret(data: SecretData, parseInt: string -> Option<int>): Result<AppCredentials, CredentialError> {
    if KEY_APP_ID !in data then Err(MissingKey(KEY_APP_ID))
    else
      match parseInt(data[KEY_APP_ID])
      case None => Err(InvalidAppID)
      case Some(appID) =>
        if KEY_PRIVATE_KEY !in data then Err(MissingKey(KEY_PRIVATE_KEY))
        else if KEY_URL !in data then Err(MissingKey(KEY_URL))
        else Ok(AppCredentials(appID, data[KEY_PRIVATE_KEY], data[KEY_URL]))
  }

  /** The Secret of a reference, in the default namespace if it names none. */
  function Load(snap: Snapshot, ref: SecretReference, defaultNamespace: string)
    : Result<AppCredentials, CredentialError>
  {
    var key := ObjectKey(if ref.namespace == "" then defaultNamespace else ref.namespace, ref.name);
    if !snap.secretRead(key) then Err(SecretReadFailed)
    else if key !in snap.store.secrets then Err(SecretNotFound)
    else FromSecret(snap.store.secrets[key], snap.parseInt)
  }

  function FirstNamed(refs: seq<SecretReference>, name: string): Result<SecretReference, CredentialError> {
    if refs == [] then Err(NameNotListed)
    else if refs[0].name == name then Ok(refs[0])
    else FirstNamed(refs[1..], name)
  }

  function SelectSecretRef(refs: seq<SecretReference>, credentialName: string)
    : Result<SecretReference, CredentialError>
  {
    if credentialName == "" then (if |refs| == 1 then Ok(refs[0]) else Err(NameRequired))
    else FirstNamed(refs, credentialName)
  }

  function Resolve(snap: Snapshot, instanceName: string, credentialName: string, defaultNamespace: string)
    : Result<AppCredentials, CredentialError>
  {
    if !snap.instanceRead then Err(InstanceReadFailed)
    else if instanceName !in snap.store.instances then Err(InstanceNotFound)
    else
      var ref := SelectSecretRef(snap.store.instances[instanceName], credentialName);
      if ref.Err? then Err(ref.error) else Load(snap, ref.value, defaultNamespace)
  }

  lemma {:induction false} FirstNamedIsFirst(refs: seq<SecretReference>, name: string)
    ensures FirstNamed(refs, name).Err? <==> forall r :: r in refs ==> r.name != name
    ensures FirstNamed(refs, name).Ok? ==>
      exists i :: 0 <= i < |refs| && refs[i] == FirstNamed(refs, name).value && refs[i].name == name
               && forall j :: 0 <= j < i ==> refs[j].name != name
  {
    if refs == [] {
    } else {
      FirstNamedIsFirst(refs[1..], name);
      if refs[0].name != name && FirstNamed(refs, name).Ok? {
        var i :| 0 <= i < |refs[1..]| && refs[1..][i] == FirstNamed(refs, name).value && refs[1..][i].name == name
               && forall j :: 0 <= j < i ==> refs[1..][j].name != name;
        assert refs[i + 1] == refs[1..][i];
        assert forall j :: 1 <= j < i + 1 ==> refs[j] == refs[1..][j - 1];
      }
    }
  }

  /** Credentials are the three values of the Secret that is named, in its own namespace or else in the
      default one; otherwise the error is the first thing missing. */
  lemma LoadMeaning(snap: Snapshot, ref: SecretReference, ns: string)
    ensures var key := ObjectKey(if |ref.namespace| > 0 then ref.namespace else ns, ref.name);
      var r, data := Load(snap, ref, ns), if key in snap.store.secrets then snap.store.secrets[key] else map[];
      var appID := if "appID" in data then snap.parseInt(data["appID"]) else None;
      && (r == Err(SecretReadFailed) <==> !snap.secretRead(key))
      && (r == Err(SecretNotFound) <==> snap.secretRead(key) && key !in snap.store.secrets)
      && (snap.secretRead(key) && key in snap.store.secrets ==>
            && (r.Ok? <==> appID.Some? && "privateKey" in data && "url" in data)
            && (r.Ok? ==>
                  && r.value.appID == appID.value
                  && r.value.privateKey == data["privateKey"] && r.value.url == data["url"])
            && (r == Err(MissingKey("appID")) <==> "appID" !in data)
            && (r == Err(InvalidAppID) <==> "appID" in data && appID.None?)
            && (r == Err(MissingKey("privateKey")) <==> appID.Some? && "privateKey" !in data)
            && (r == Err(MissingKey("url")) <==> appID.Some? && "privateKey" in data && "url" !in data))
  {
    assert "appID"[0] != "privateKey"[0] && "appID"[0] != "url"[0] && "privateKey"[0] != "url"[0];
  }

  /** Which Secret of an instance that is: the first one of the name, or without a name the only one. */
  lemma ResolveMeaning(snap: Snapshot, instance: string, name: string, ns: string)
    requires snap.instanceRead && instance in snap.store.instances
    ensures var refs, r := snap.store.instances[instance], Resolve(snap, instance, name, ns);
      && (|name| == 0 && |refs| == 1 ==> r == Load(snap, refs[0], ns))
      && (|name| == 0 && |refs| != 1 ==> r == Err(NameRequired))
      && (|name| > 0 && (forall ref :: ref in refs ==> ref.name != name) ==> r == Err(NameNotListed))
      && (|name| > 0 && (exists ref :: ref in refs && ref.name == name) ==>
            exists i :: 0 <= i < |refs| && refs[i].name == name && r == Load(snap, refs[i], ns)
                     && forall j :: 0 <= j < i ==> refs[j].name != name)
  {
    var refs := snap.store.instances[instance];
    hide Load;
    FirstNamedIsFirst(refs, name);
    FirstNamedError(refs, name);
  }

  lemma {:induction false} FirstNamedError(refs: seq<SecretReference>, name: string)
    ensures FirstNamed(refs, name).Err? ==> FirstNamed(refs, name).error == NameNotListed
  {
    if refs == [] {
    } else {
      FirstNamedError(refs[1..], name);
    }
  }

  lemma InstanceErrors(snap: Snapshot, instance: string, name: string, ns: string)
    ensures !snap.instanceRead ==> Resolve(snap, instance, name, ns) == Err(InstanceReadFailed)
    ensures snap.instanceRead && instance !in snap.store.instances ==>
      Resolve(snap, instance, name, ns) == Err(InstanceNotFound)
  {
  }
}
