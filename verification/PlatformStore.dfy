/** The platform cluster: AccessRequests, GitHubInstances and their credential Secrets. */
module PlatformStore {
  import opened Wrappers
  import opened Names
  import opened McpStore

  datatype AccessPhase = Pending | Denied | Granted

  /** `requestRef` names the cluster that access is requested to; it is immutable. */
  datatype AccessRequest = AccessRequest(requestRef: ObjectKey, phase: AccessPhase)

  /** All in the controller's own namespace, by name. */
  type Requests = map<string, AccessRequest>

  datatype SecretReference = SecretReference(name: string, namespace: string)

  type SecretData = map<string, string>

  /** What credentials are resolved from. */
  datatype CredentialStore = CredentialStore(
    instances: map<string, seq<SecretReference>>,
    secrets: map<ObjectKey, SecretData>)

  /** Deleting an object that is not there is no error, provided the call gets through. */
  function AfterDelete(requests: Requests, name: string, o: WriteOutcome): Requests {
    if o == Lost then requests else requests - {name}
  }

  class Platform {
    var requests: Requests
    const credentials: CredentialStore

    constructor (requests: Requests, credentials: CredentialStore)
      ensures this.requests == requests && this.credentials == credentials
    {
      this.requests := requests;
      this.credentials := credentials;
    }

    method GetRequest(name: string, answered: bool) returns (r: Result<AccessRequest, ReadError>)
      ensures r == if !answered then Err(ReadFailed)
                   else if name in requests then Ok(requests[name]) else Err(NotFound)
    {
      if !answered {
        return Err(ReadFailed);
      }
      r := if name in requests then Ok(requests[name]) else Err(NotFound);
    }

    method CreateRequest(name: string, request: AccessRequest, o: WriteOutcome) returns (ok: bool)
      requires name !in requests
      modifies this`requests
      ensures ok <==> o == Applied
      ensures requests == if o == Lost then old(requests) else old(requests)[name := request]
    {
      if o != Lost {
        requests := requests[name := request];
      }
      ok := o == Applied;
    }

    method DeleteRequest(name: string, o: WriteOutcome) returns (ok: bool)
      modifies this`requests
      ensures ok <==> o == Applied
      ensures requests == AfterDelete(old(requests), name, o)
    {
      if o != Lost {
        requests := requests - {name};
      }
      ok := o == Applied;
    }
  }
}
