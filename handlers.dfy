/** The identity consumer `test` (app/backend/main.py, lines 99-115) and the
    path of a request through the gate to it. */
module Handlers {
  import opened Json
  import opened Responses
  import opened Strings
  import opened Claims
  import opened Gate

  const IdentityNotFound: string := "userDetails or iss claim not found"

  /** The reply of `test` for the two attributes it reads: 200 echoing both
      when both are set, 400 when either is `None`. */
  function TestResponse(userDetails: Option<string>, issVal: Option<Json>): (r: Response)
    ensures r.status == OK || r.status == BadRequest
    ensures r.status == OK <==> userDetails.Some? && issVal.Some?
    ensures r.status == OK ==>
      r.body == JObject(map["userDetails" := JString(userDetails.value), "iss" := issVal.value])
    ensures r.status == BadRequest ==> r.body == ErrorBody(IdentityNotFound)
  {
    if userDetails.None? || issVal.None? then Response(BadRequest, ErrorBody(IdentityNotFound))
    else Response(OK, JObject(map["userDetails" := JString(userDetails.value), "iss" := issVal.value]))
  }

  /** `test` reading `request.state`. */
  function TestHandler(state: RequestState): (r: Response)
    reads state
    ensures r.status == OK <==> state.userDetails.Some? && state.issVal.Some?
    ensures r.status == OK ==> r.body.JObject? && r.body.fields.Keys == {"userDetails", "iss"}
  {
    TestResponse(state.userDetails, state.issVal)
  }

  /** What a client of `/api/test` receives for a body: the gate's rejection,
      or the handler's reply to the identity the gate stored. */
  function Serve(body: Body): (r: Response)
    ensures r.status == Forbidden || r.status == OK || r.status == BadRequest
    ensures r.status == OK ==> Decide(body, AllowedTenants).Admit?
  {
    match Decide(body, AllowedTenants)
    case Reject(reason) => RejectionResponse(reason)
    case Admit(identity) => TestResponse(Some(identity.userDetails), identity.issuer)
  }

  /** A request through the gate into `test`: the gate runs on a fresh state
      and the handler is reached only when the gate calls `call_next`. */
  method HandleTestRequest(body: Body) returns (resp: Response)
    ensures resp == Serve(body)
  {
    var state := new RequestState();
    var d := ValidateTenants(body, state);
    if d.Reject? {
      resp := RejectionResponse(d.reason);
    } else {
      resp := TestHandler(state);
    }
  }

  /** The replies a client can see: every rejection is a 403 with its own
      message; an admitted request gets 200 with the user verbatim and the
      issuer when an issuer was found, and 400 otherwise. */
  lemma ServeCases(body: Body)
    ensures Decide(body, AllowedTenants).Reject? ==>
      Serve(body) == Response(Forbidden, ErrorBody(Message(Decide(body, AllowedTenants).reason)))
    ensures Decide(body, AllowedTenants).Admit? ==>
      var identity := Decide(body, AllowedTenants).identity;
      (Serve(body).status == OK <==> identity.issuer.Some?) &&
      (identity.issuer.Some? ==>
         Serve(body).body ==
         JObject(map["userDetails" := JString(identity.userDetails), "iss" := identity.issuer.value])) &&
      (identity.issuer.None? ==> Serve(body) == Response(BadRequest, ErrorBody(IdentityNotFound)))
    ensures Serve(body).status == Forbidden <==> Decide(body, AllowedTenants).Reject?
  {
  }

  /** For a well-formed principal whose user's last `@` is at index `k`,
      the text after it decides between `test`'s answer for the stored
      identity and the refusal. */
  lemma ServeUser(body: Body, user: string, issuer: Option<Json>, k: int)
    requires Extract(body) == Ok(Principal(Some(JString(user)), issuer))
    requires 0 <= k < |user| && user[k] == '@' && '@' !in user[k + 1..]
    ensures user[k + 1..] in AllowedTenants ==>
      Decide(body, AllowedTenants) == Admit(RequestIdentity(user, issuer)) &&
      Serve(body) == TestResponse(Some(user), issuer)
    ensures user[k + 1..] !in AllowedTenants ==>
      Serve(body) == RejectionResponse(TenantNotAllowed(user[k + 1..]))
  {
    LastPieceAfter(user, '@', k);
  }

  /** The user of the admitted scenarios: its last `@` is at index 5 and
      `microsoft.com` follows it. */
  lemma AllowedUser(user: string)
    // `user` is a parameter so that the literal is not unrolled through `Split`
    requires user == "alice@microsoft.com"
    ensures |user| == 19 && user[5] == '@' && '@' !in user[6..] && user[6..] in AllowedTenants
  {
    assert user[6..] == AllowedTenants[0];
    AllowedTenantsHaveNoAt();
  }

  /** The principal of the admitted scenario: the user, and `idp1` from
      its single `iss` claim. */
  lemma AdmittedScenarioExtract(user: string, body: Body)
    requires body == PrincipalBody(map[
      "userDetails" := JString(user),
      "claims" := JArray([JObject(map["typ" := JString("iss"), "val" := JString("idp1")])])
    ])
    ensures Extract(body) == Ok(Principal(Some(JString(user)), Some(JString("idp1"))))
  {
    var claim := JObject(map["typ" := JString("iss"), "val" := JString("idp1")]);
    assert IssuerOf(JArray([claim])) == Ok(Some(JString("idp1")));
  }

  /** Admitted user, first `iss` claim echoed. */
  lemma AdmittedScenario(user: string, body: Body)
    // `user` is a parameter so that the literal is not unrolled through `Split`
    requires user == "alice@microsoft.com"
    requires body == PrincipalBody(map[
      "userDetails" := JString(user),
      "claims" := JArray([JObject(map["typ" := JString("iss"), "val" := JString("idp1")])])
    ])
    ensures Serve(body) == Response(OK, JObject(map["userDetails" := JString(user), "iss" := JString("idp1")]))
  {
    AdmittedScenarioExtract(user, body);
    AllowedUser(user);
    ServeUser(body, user, Some(JString("idp1")), 5);
  }

  /** Refused tenant, named in the message. */
  lemma RefusedTenantScenario(user: string, body: Body)
    // `user` is a parameter so that the literal is not unrolled through `Split`
    requires user == "bob@evil.com"
    requires body == PrincipalBody(map["userDetails" := JString(user), "claims" := JArray([])])
    ensures Serve(body) == Response(Forbidden, ErrorBody("Tenant 'evil.com' is not allowed."))
  {
    EmptyClaimsExtract(user, body);
    assert user[4..] == "evil.com";
    ServeUser(body, user, None, 3);
    TenantMessageExample();
  }

  /** A principal with an empty `claims` list extracts with no issuer. */
  lemma EmptyClaimsExtract(user: string, body: Body)
    requires body == PrincipalBody(map["userDetails" := JString(user), "claims" := JArray([])])
    ensures Extract(body) == Ok(Principal(Some(JString(user)), None))
  {
  }

  /** An empty object: no principal, so no user. */
  lemma EmptyObjectScenario()
    ensures Serve(Parsed(JObject(map[]))) == Response(Forbidden, ErrorBody("userDetails not found or invalid."))
  {
  }

  /** A body that is not JSON. */
  lemma UnparsableScenario()
    ensures Serve(Unparsable) ==
      Response(Forbidden, ErrorBody("Request body must be JSON and contain valid clientPrincipal."))
  {
  }

  /** An allowed user without an `iss` claim passes the gate but `test`
      answers 400. */
  lemma AdmittedWithoutIssuerScenario(user: string, body: Body)
    // `user` is a parameter so that the literal is not unrolled through `Split`
    requires user == "alice@microsoft.com"
    requires body == PrincipalBody(map["userDetails" := JString(user)])
    ensures Decide(body, AllowedTenants) == Admit(RequestIdentity(user, None))
    ensures Serve(body) == Response(BadRequest, ErrorBody(IdentityNotFound))
  {
    MissingClaimsExtract(user, body);
    AllowedUser(user);
    ServeUser(body, user, None, 5);
  }

  /** A principal without `claims` extracts with no issuer. */
  lemma MissingClaimsExtract(user: string, body: Body)
    requires body == PrincipalBody(map["userDetails" := JString(user)])
    ensures Extract(body) == Ok(Principal(Some(JString(user)), None))
  {
  }
}
