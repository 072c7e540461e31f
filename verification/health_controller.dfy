/** The ping endpoint: the API-key and required-field checks, in order, in
    front of ingestion. */
module HealthController {
  import opened Wrappers
  import opened Records
  import opened Store
  import opened HealthService

  /** The request body as received: every field may be absent. */
  datatype PingRequest = PingRequest(
    boothId: Option<string>,
    name: Option<string>,
    status: Option<string>,
    message: Option<string>,
    metadata: Option<Metadata>)

  datatype HttpError = BadRequest(msg: string) | Unauthorized(msg: string)

  /** The request is well formed once `boothId` and `status` are non-empty. */
  function AsPing(req: PingRequest): Ping
    requires Truthy(req.boothId) && Truthy(req.status)
  {
    Ping(req.boothId.value, req.name, req.status.value, req.message, req.metadata)
  }

  /** `configured` is the server's API_KEY setting, `header` the request's
      x-api-key header. */
  function HandlePing(configured: Option<string>, header: Option<string>, req: PingRequest, st: Store, now: int)
    : (r: Result<Ingested, HttpError>)
    ensures !Truthy(configured) ==> r == Failure(BadRequest("API_KEY not configured"))
    ensures Truthy(configured) && !(Truthy(header) && header == configured) ==>
      r == Failure(Unauthorized("Invalid API key"))
    ensures Truthy(configured) && header == configured && !(Truthy(req.boothId) && Truthy(req.status)) ==>
      r == Failure(BadRequest("boothId and status are required"))
    ensures r.Success? <==>
      Truthy(configured) && header == configured && Truthy(req.boothId) && Truthy(req.status)
    ensures r.Success? ==> r.value == ProcessHealthPing(st, AsPing(req), now)
  {
    if !Truthy(configured) then Failure(BadRequest("API_KEY not configured"))
    else if !Truthy(header) || header != configured then Failure(Unauthorized("Invalid API key"))
    else if !Truthy(req.boothId) || !Truthy(req.status) then Failure(BadRequest("boothId and status are required"))
    else Success(ProcessHealthPing(st, AsPing(req), now))
  }

  /** Authentication comes first: without the right key nothing about the
      body is revealed, and a rejected request leaves the store untouched
      and sends nothing. */
  lemma AuthenticationBeforeValidation(configured: Option<string>, header: Option<string>,
                                       req: PingRequest, req': PingRequest, st: Store, now: int)
    requires !(Truthy(configured) && header == configured)
    ensures HandlePing(configured, header, req, st, now) == HandlePing(configured, header, req', st, now)
    ensures HandlePing(configured, header, req, st, now).Failure?
  {
  }

  /** An accepted ping is ingested exactly as sent: one new log carrying its
      status, and a valid store stays valid. */
  lemma AcceptedPingIsIngested(configured: Option<string>, header: Option<string>, req: PingRequest, st: Store, now: int)
    requires Valid(st)
    ensures var r := HandlePing(configured, header, req, st, now);
      r.Success? ==>
        && Valid(r.value.store)
        && |r.value.store.logs| == |st.logs| + 1
        && r.value.store.logs[|st.logs|].status == req.status.value
        && req.boothId.value in r.value.store.booths
  {
    var r := HandlePing(configured, header, req, st, now);
    if r.Success? {
      IngestPreservesValid(st, AsPing(req), now);
    }
  }
}
