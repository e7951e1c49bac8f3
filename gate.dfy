/** The tenant gate `validate_tenants` (app/backend/main.py, lines 12-50):
    it extracts the principal, finds the user's tenant domain, allows or
    refuses it, and on admission stores the identity on the per-request
    state before the request goes on to the next handler. */
module Gate {
  import opened Json
  import opened Responses
  import opened Strings
  import opened Claims

  /** The fixed allow-list of tenant domains (line 15). */
  const AllowedTenants: seq<string> := ["microsoft.com", "contoso.com"]

  /** Every allowed tenant is a bare domain, so it can be the text after an `@`. */
  lemma AllowedTenantsHaveNoAt()
    ensures forall i :: 0 <= i < |AllowedTenants| ==> '@' !in AllowedTenants[i]
  {
    assert '@' !in AllowedTenants[0];
    assert '@' !in AllowedTenants[1];
  }

  /** The identity an admitted request carries downstream. */
  datatype RequestIdentity = RequestIdentity(userDetails: string, issuer: Option<Json>)

  /** The gate either answers the request itself with a rejection, or admits
      it, which is when it calls the next handler. */
  datatype Decision = Reject(reason: Rejection) | Admit(identity: RequestIdentity)

  /** Line 27 and the `split` of line 28 applied to whatever `userDetails` is:
      a falsy value is a missing identity; `'@' in v` is a substring test on a
      string, an element test on a list and a key test on a dictionary, and
      raises on a number or `True`; only a string can then be split. */
  function Identifier(userDetails: Option<Json>): (r: Result<string>)
    ensures r.Ok? <==> userDetails.Some? && userDetails.value.JString? && '@' in userDetails.value.s
    ensures r.Ok? ==> userDetails == Some(JString(r.value))
    ensures !Truthy(userDetails) ==> r == Err(MissingIdentity)
    ensures userDetails.Some? && userDetails.value.JString? && '@' !in userDetails.value.s ==>
      r == Err(MissingIdentity)
    ensures r.Err? ==> r.reason == MalformedBody || r.reason == MissingIdentity
    ensures userDetails == Some(JBool(true)) ==> r == Err(MalformedBody)
    ensures userDetails.Some? && userDetails.value.JInt? && userDetails.value.n != 0 ==>
      r == Err(MalformedBody)
    ensures userDetails.Some? && userDetails.value.JArray? ==>
      (r == Err(MalformedBody) <==> JString("@") in userDetails.value.items) &&
      (r == Err(MissingIdentity) <==> JString("@") !in userDetails.value.items)
    ensures userDetails.Some? && userDetails.value.JObject? ==>
      (r == Err(MalformedBody) <==> "@" in userDetails.value.fields) &&
      (r == Err(MissingIdentity) <==> "@" !in userDetails.value.fields)
  {
    if !Truthy(userDetails) then Err(MissingIdentity)
    else
      match userDetails.value
      case JString(s) => if '@' in s then Ok(s) else Err(MissingIdentity)
      case JArray(items) => if JString("@") in items then Err(MalformedBody) else Err(MissingIdentity)
      case JObject(fields) => if "@" in fields then Err(MalformedBody) else Err(MissingIdentity)
      case _ => Err(MalformedBody)
  }

  /** The gate's decision as a function of the body and the allow-list:
      extraction first, then the identifier, then the tenant. */
  function Decide(body: Body, allowed: seq<string>): (d: Decision)
    ensures d.Admit? ==> '@' in d.identity.userDetails && Domain(d.identity.userDetails) in allowed
    ensures d.Reject? && d.reason.TenantNotAllowed? ==> d.reason.domain !in allowed
  {
    match Extract(body)
    case Err(e) => Reject(e)
    case Ok(principal) =>
      match Identifier(principal.userDetails)
      case Err(e) => Reject(e)
      case Ok(user) =>
        var domain := Domain(user);
        if domain in allowed then Admit(RequestIdentity(user, principal.issuer))
        else Reject(TenantNotAllowed(domain))
  }

  /** A body of the shape `{"clientPrincipal": principal}`. */
  function PrincipalBody(principal: map<string, Json>): (body: Body)
  {
    Parsed(JObject(map["clientPrincipal" := JObject(principal)]))
  }

  /** Once the principal is extracted and the user is a string with an `@`,
      the tenant is the text after the last `@` and decides alone: admitted
      with the user verbatim and the extracted issuer when it is on the
      list (by exact equality), refused naming that domain otherwise. */
  lemma TenantDecision(body: Body, allowed: seq<string>)
    requires Extract(body).Ok?
    requires Extract(body).value.userDetails.Some?
    requires Extract(body).value.userDetails.value.JString?
    requires '@' in Extract(body).value.userDetails.value.s
    ensures var principal := Extract(body).value;
      var user := principal.userDetails.value.s;
      var domain := Domain(user);
      && '@' !in domain
      && |domain| < |user| && user == user[..|user| - |domain| - 1] + "@" + domain
      && Decide(body, allowed) ==
         if domain in allowed then Admit(RequestIdentity(user, principal.issuer))
         else Reject(TenantNotAllowed(domain))
  {
    DomainAfterLastAt(Extract(body).value.userDetails.value.s);
  }

  /** The outcomes in their fixed order: a shape failure wins over everything,
      an identity failure over the tenant check; every rejection is one of
      the three classes and only a tenant refusal names a domain. */
  lemma DecisionOrder(body: Body, allowed: seq<string>)
    ensures Extract(body).Err? ==> Decide(body, allowed) == Reject(MalformedBody)
    ensures Extract(body).Ok? && !Truthy(Extract(body).value.userDetails) ==>
      Decide(body, allowed) == Reject(MissingIdentity)
    ensures Decide(body, allowed).Reject? && Decide(body, allowed).reason.TenantNotAllowed? ==>
      Extract(body).Ok? && Identifier(Extract(body).value.userDetails).Ok? &&
      Decide(body, allowed).reason.domain !in allowed
  {
  }

  /** A request is admitted exactly when the principal is well formed, the
      user is a string containing `@`, and its domain is allowed; the
      admitted identity is the user verbatim and the extracted issuer. */
  lemma AdmittedIff(body: Body, allowed: seq<string>)
    ensures Decide(body, allowed).Admit? <==>
      && Extract(body).Ok?
      && Identifier(Extract(body).value.userDetails).Ok?
      && Domain(Identifier(Extract(body).value.userDetails).value) in allowed
    ensures Decide(body, allowed).Admit? ==>
      var identity := Decide(body, allowed).identity;
      && Extract(body).value.userDetails == Some(JString(identity.userDetails))
      && identity.issuer == Extract(body).value.issuer
      && '@' in identity.userDetails
  {
  }

  /** End to end from the body's own fields: for any dictionary body whose
      `clientPrincipal` has claims the search gets through and a
      `userDetails` that is a string with an `@`, the gate admits exactly
      that string and the issuer of those claims when the text after its
      last `@` is allowed, and refuses naming that text otherwise.  Other
      top-level keys of the body play no part. */
  lemma PrincipalDecision(fields: map<string, Json>, principal: map<string, Json>,
                          user: string, allowed: seq<string>)
    requires "clientPrincipal" in fields && fields["clientPrincipal"] == JObject(principal)
    requires IssuerOf(GetOr(principal, "claims", JArray([]))).Ok?
    requires "userDetails" in principal && principal["userDetails"] == JString(user)
    requires '@' in user
    ensures var issuer := IssuerOf(GetOr(principal, "claims", JArray([]))).value;
      var domain := Domain(user);
      && '@' !in domain
      && |domain| < |user| && user == user[..|user| - |domain| - 1] + "@" + domain
      && Decide(Parsed(JObject(fields)), allowed) ==
         if domain in allowed then Admit(RequestIdentity(user, issuer))
         else Reject(TenantNotAllowed(domain))
  {
    TenantDecision(Parsed(JObject(fields)), allowed);
  }

  /** Claims are read before the user: malformed claims are a shape failure
      even when `userDetails` is missing too, whatever else the body holds. */
  lemma ClaimsBeforeUser(fields: map<string, Json>, principal: map<string, Json>, allowed: seq<string>)
    requires "clientPrincipal" in fields && fields["clientPrincipal"] == JObject(principal)
    requires IssuerOf(GetOr(principal, "claims", JArray([]))).Err?
    ensures Decide(Parsed(JObject(fields)), allowed) == Reject(MalformedBody)
  {
  }

  /** With well-formed claims, a `userDetails` that is absent, null, or a
      string without `@` (the empty string included) is a missing identity,
      whatever else the body holds. */
  lemma MissingUser(fields: map<string, Json>, principal: map<string, Json>, allowed: seq<string>)
    requires "clientPrincipal" in fields && fields["clientPrincipal"] == JObject(principal)
    requires IssuerOf(GetOr(principal, "claims", JArray([]))).Ok?
    requires "userDetails" !in principal || principal["userDetails"] == JNull ||
      (principal["userDetails"].JString? && '@' !in principal["userDetails"].s)
    ensures Decide(Parsed(JObject(fields)), allowed) == Reject(MissingIdentity)
  {
  }

  /** `request.state`: the attributes the gate sets on an admitted request.
      An attribute never set reads as `None` (`getattr(..., None)`). */
  class RequestState {
    var userDetails: Option<string>
    var issVal: Option<Json>

    constructor ()
      ensures userDetails == None && issVal == None
    {
      userDetails := None;
      issVal := None;
    }
  }

  /** `validate_tenants` step by step.  The state is written only on
      admission, and only then does the request reach the next handler. */
  method ValidateTenants(body: Body, state: RequestState) returns (d: Decision)
    modifies state
    ensures d == Decide(body, AllowedTenants)
    ensures d.Admit? ==> state.userDetails == Some(d.identity.userDetails) &&
                         state.issVal == d.identity.issuer
    ensures d.Reject? ==> unchanged(state)
  {
    // the body must be a parsed dictionary
    if body.Unparsable? || !body.value.JObject? {
      return Reject(MalformedBody);
    }
    var principal := GetOr(body.value.fields, "clientPrincipal", JObject(map[]));
    if !principal.JObject? {
      return Reject(MalformedBody);
    }
    var userDetails := Get(principal.fields, "userDetails");
    var claims := GetOr(principal.fields, "claims", JArray([]));
    var issuer := SearchIssuer(claims);
    if issuer.Err? {
      return Reject(issuer.reason);
    }
    var user := Identifier(userDetails);
    if user.Err? {
      return Reject(user.reason);
    }
    var domain := Domain(user.value);
    if domain !in AllowedTenants {
      return Reject(TenantNotAllowed(domain));
    }
    state.userDetails := Some(user.value);
    state.issVal := issuer.value;
    d := Admit(RequestIdentity(user.value, issuer.value));
  }
}
