/** The gate's failure classes and the JSON responses it and the identity
    handler send back. */
module Responses {
  import opened Json

  /** The three ways the tenant gate refuses a request. */
  datatype Rejection =
    | MalformedBody                  // any exception inside the gate's `try`
    | MissingIdentity                // `userDetails` absent, falsy or without `@`
    | TenantNotAllowed(domain: string)

  /** An outcome that is either a value or a rejection. */
  datatype Result<+T> = Ok(value: T) | Err(reason: Rejection)

  /** An HTTP response: a status code and a JSON body. */
  datatype Response = Response(status: int, body: Json)

  const Forbidden: int := 403
  const BadRequest: int := 400
  const OK: int := 200

  /** The text of the `"error"` field for each rejection. */
  function Message(r: Rejection): (m: string)
  {
    match r
    case MalformedBody => "Request body must be JSON and contain valid clientPrincipal."
    case MissingIdentity => "userDetails not found or invalid."
    case TenantNotAllowed(domain) => "Tenant '" + domain + "' is not allowed."
  }

  /** `{"error": message}` */
  function ErrorBody(message: string): (body: Json)
  {
    JObject(map["error" := JString(message)])
  }

  /** The response the gate returns instead of forwarding the request. */
  function RejectionResponse(r: Rejection): (resp: Response)
    ensures resp.status == Forbidden
    ensures resp.body.JObject? && resp.body.fields.Keys == {"error"}
  {
    Response(Forbidden, ErrorBody(Message(r)))
  }

  /** Distinct rejections produce distinct messages: a client can tell the
      three failure classes apart, and recover the refused domain verbatim. */
  lemma MessageInjective(r1: Rejection, r2: Rejection)
    ensures Message(r1) == Message(r2) ==> r1 == r2
  {
    if Message(r1) == Message(r2) {
      if r1.TenantNotAllowed? {
        TenantMessageNamesDomain(r1.domain);
      }
      if r2.TenantNotAllowed? {
        TenantMessageNamesDomain(r2.domain);
      }
      assert Message(r1)[0] == Message(r2)[0];
    }
  }

  /** The message for a refused tenant carries the domain verbatim between
      the quotes. */
  lemma TenantMessageNamesDomain(domain: string)
    ensures var m := Message(TenantNotAllowed(domain));
      |m| == |domain| + 25 && m[0] == 'T' && m[8..8 + |domain|] == domain
  {
    var m := Message(TenantNotAllowed(domain));
    assert m == "Tenant '" + domain + "' is not allowed.";
    assert m[8..8 + |domain|] == domain;
    assert m[0] == 'T';
  }

  /** The message for the domain `evil.com`. */
  lemma TenantMessageExample()
    ensures Message(TenantNotAllowed("evil.com")) == "Tenant 'evil.com' is not allowed."
  {
  }
}
