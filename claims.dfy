/** The claim extractor: what the gate reads out of a deserialised body
    before it looks at the user (app/backend/main.py, lines 17-25).
    Every Python exception raised here becomes `Err(MalformedBody)`. */
module Claims {
  import opened Json
  import opened Responses

  /** A claim that ends the search: a dictionary whose `typ` is the string `"iss"`. */
  predicate IsIssClaim(claim: Json)
  {
    claim.JObject? && Get(claim.fields, "typ") == Some(JString("iss"))
  }

  /** The search over a list of claims: each entry is asked `claim.get('typ')`,
      which fails unless it is a dictionary; the first `"iss"` entry ends the
      search with its `val` (None when it has none); no such entry gives None. */
  function FindIssuer(claims: seq<Json>): (r: Result<Option<Json>>)
    ensures r.Err? ==> r.reason == MalformedBody
    ensures r.Ok? && r.value.Some? ==> r.value.value != JNull
    decreases |claims|
  {
    if |claims| == 0 then Ok(None)
    else if !claims[0].JObject? then Err(MalformedBody)
    else if IsIssClaim(claims[0]) then Ok(Get(claims[0].fields, "val"))
    else FindIssuer(claims[1..])
  }

  /** `for claim in claims` over whatever `claims` is: a list yields its
      entries; a string yields one-character strings and a dictionary its
      keys, so either fails at the first `.get` unless it is empty; `None`,
      a boolean or a number is not iterable. */
  function IssuerOf(claims: Json): (r: Result<Option<Json>>)
    ensures r.Err? ==> r.reason == MalformedBody
    ensures !(claims.JArray? || claims.JString? || claims.JObject?) ==> r.Err?
  {
    match claims
    case JArray(items) => FindIssuer(items)
    case JString(s) => if s == "" then Ok(None) else Err(MalformedBody)
    case JObject(fields) => if fields == map[] then Ok(None) else Err(MalformedBody)
    case _ => Err(MalformedBody)
  }

  /** The first `"iss"` claim decides the issuer, provided every claim before
      it is a dictionary. */
  lemma {:induction false} FirstIssClaimWins(claims: seq<Json>, k: int)
    requires 0 <= k < |claims| && IsIssClaim(claims[k])
    requires forall j :: 0 <= j < k ==> claims[j].JObject? && !IsIssClaim(claims[j])
    ensures FindIssuer(claims) == Ok(Get(claims[k].fields, "val"))
    decreases k
  {
    if k > 0 {
      FirstIssClaimWins(claims[1..], k - 1);
    }
  }

  /** With no `"iss"` claim among well-formed claims the issuer is None. */
  lemma {:induction false} NoIssClaim(claims: seq<Json>)
    requires forall j :: 0 <= j < |claims| ==> claims[j].JObject? && !IsIssClaim(claims[j])
    ensures FindIssuer(claims) == Ok(None)
    decreases |claims|
  {
    if |claims| > 0 {
      NoIssClaim(claims[1..]);
    }
  }

  /** The search fails exactly when a non-dictionary entry is reached before
      any `"iss"` claim; the only failure is `MalformedBody`. */
  lemma {:induction false} FindIssuerFails(claims: seq<Json>)
    ensures FindIssuer(claims).Err? <==>
      exists k :: 0 <= k < |claims| && !claims[k].JObject? &&
        forall j :: 0 <= j < k ==> !IsIssClaim(claims[j])
    decreases |claims|
  {
    if |claims| > 0 {
      FindIssuerFails(claims[1..]);
      if claims[0].JObject? && !IsIssClaim(claims[0]) {
        if FindIssuer(claims).Err? {
          var k :| 0 <= k < |claims[1..]| && !claims[1..][k].JObject? &&
            forall j :: 0 <= j < k ==> !IsIssClaim(claims[1..][j]);
          assert !claims[k + 1].JObject?;
          assert forall j :: 0 <= j < k + 1 ==> !IsIssClaim(claims[j]) by {
            forall j | 0 <= j < k + 1 ensures !IsIssClaim(claims[j]) {
              if j > 0 { assert claims[j] == claims[1..][j - 1]; }
            }
          }
        }
      } else if IsIssClaim(claims[0]) {
        assert !(exists k :: 0 <= k < |claims| && !claims[k].JObject? &&
                   forall j :: 0 <= j < k ==> !IsIssClaim(claims[j]));
      } else {
        assert !claims[0].JObject?;
      }
    }
  }

  /** Claims after the first `"iss"` claim are never looked at: appending
      anything to the list (other `"iss"` claims, malformed entries) leaves
      the outcome unchanged. */
  lemma {:induction false} LaterClaimsIgnored(claims: seq<Json>, more: seq<Json>, k: int)
    requires 0 <= k < |claims| && IsIssClaim(claims[k])
    ensures FindIssuer(claims + more) == FindIssuer(claims)
    decreases k
  {
    var all := claims + more;
    assert all[0] == claims[0];
    if k > 0 && claims[0].JObject? && !IsIssClaim(claims[0]) {
      assert all[1..] == claims[1..] + more;
      LaterClaimsIgnored(claims[1..], more, k - 1);
    }
  }

  /** The loop of lines 21-25 as written: `iss_val` starts as None, each
      claim's `typ` is read in turn, and the first `"iss"` claim sets
      `iss_val` to its `val` and breaks out. */
  method SearchIssuer(claims: Json) returns (r: Result<Option<Json>>)
    ensures r == IssuerOf(claims)
  {
    if !claims.JArray? {
      // a non-list container: only the empty string or dictionary gets past
      // the first `claim.get`
      if (claims.JString? && claims.s == "") || (claims.JObject? && claims.fields == map[]) {
        return Ok(None);
      }
      return Err(MalformedBody);
    }
    var items := claims.items;
    var issVal: Option<Json> := None;
    var i := 0;
    while i < |items|
      invariant 0 <= i <= |items|
      invariant FindIssuer(items[i..]) == FindIssuer(items)
      invariant issVal == None
    {
      var claim := items[i];
      if !claim.JObject? {
        return Err(MalformedBody);
      }
      if Get(claim.fields, "typ") == Some(JString("iss")) {
        issVal := Get(claim.fields, "val");
        break;
      }
      assert items[i + 1..] == items[i..][1..];
      i := i + 1;
    }
    return Ok(issVal);
  }

  /** The worked example: with claims `aud`, `iss`, `iss` the first `iss` wins. */
  lemma FirstOfTwoIssuers()
    ensures FindIssuer([
      JObject(map["typ" := JString("aud"), "val" := JString("x")]),
      JObject(map["typ" := JString("iss"), "val" := JString("https://issuer.example")]),
      JObject(map["typ" := JString("iss"), "val" := JString("ignored")])
    ]) == Ok(Some(JString("https://issuer.example")))
  {
    var claims := [
      JObject(map["typ" := JString("aud"), "val" := JString("x")]),
      JObject(map["typ" := JString("iss"), "val" := JString("https://issuer.example")]),
      JObject(map["typ" := JString("iss"), "val" := JString("ignored")])
    ];
    assert !IsIssClaim(claims[0]);
    FirstIssClaimWins(claims, 1);
  }

  /** An `"iss"` claim without `val` still ends the search, with no issuer,
      even when a later `"iss"` claim has one. */
  lemma IssClaimWithoutValue()
    ensures FindIssuer([
      JObject(map["typ" := JString("iss")]),
      JObject(map["typ" := JString("iss"), "val" := JString("later")])
    ]) == Ok(None)
  {
  }

  /** What the extractor hands to the gate: `userDetails` as read (None when
      absent or null) and the issuer found among the claims. */
  datatype Principal = Principal(userDetails: Option<Json>, issuer: Option<Json>)

  /** Lines 17-25: the body must be a dictionary; `clientPrincipal` defaults
      to an empty dictionary when absent but must be a dictionary when
      present; `claims` defaults to an empty list. */
  function Extract(body: Body): (r: Result<Principal>)
    ensures r.Err? ==> r.reason == MalformedBody
    ensures r.Ok? ==> body.Parsed? && body.value.JObject?
  {
    match body
    case Unparsable => Err(MalformedBody)
    case Parsed(value) =>
      if !value.JObject? then Err(MalformedBody)
      else
        var principal := GetOr(value.fields, "clientPrincipal", JObject(map[]));
        if !principal.JObject? then Err(MalformedBody)
        else
          var userDetails := Get(principal.fields, "userDetails");
          var claims := GetOr(principal.fields, "claims", JArray([]));
          match IssuerOf(claims)
          case Err(e) => Err(e)
          case Ok(issuer) => Ok(Principal(userDetails, issuer))
  }

  /** The `claims` values the loop of lines 22-25 gets through without
      raising: a list in which every non-dictionary entry comes after an
      `"iss"` claim, or an empty string or dictionary. */
  predicate ClaimsReadable(claims: Json)
  {
    match claims
    case JArray(items) =>
      forall k :: 0 <= k < |items| && !items[k].JObject? ==>
        exists j :: 0 <= j < k && IsIssClaim(items[j])
    case JString(s) => s == ""
    case JObject(fields) => fields == map[]
    case _ => false
  }

  /** The issuer search gets through exactly the readable `claims`. */
  lemma IssuerOfReadable(claims: Json)
    ensures IssuerOf(claims).Ok? <==> ClaimsReadable(claims)
    ensures IssuerOf(claims).Ok? && !claims.JArray? ==> IssuerOf(claims).value == None
  {
    if claims.JArray? {
      FindIssuerFails(claims.items);
    }
  }

  /** Extraction succeeds exactly when the body is a dictionary whose
      `clientPrincipal` is absent, or a dictionary whose `claims`, if any,
      are readable.  The principal then holds that dictionary's non-null
      `userDetails` verbatim, and the issuer of its claims. */
  lemma ExtractSucceeds(body: Body)
    ensures Extract(body).Ok? <==>
      && body.Parsed? && body.value.JObject?
      && ("clientPrincipal" in body.value.fields ==>
            && body.value.fields["clientPrincipal"].JObject?
            && ("claims" in body.value.fields["clientPrincipal"].fields ==>
                  ClaimsReadable(body.value.fields["clientPrincipal"].fields["claims"])))
    ensures Extract(body).Ok? && "clientPrincipal" !in body.value.fields ==>
      Extract(body).value == Principal(None, None)
    ensures Extract(body).Ok? && "clientPrincipal" in body.value.fields ==>
      var principal := body.value.fields["clientPrincipal"].fields;
      var r := Extract(body).value;
      && (r.userDetails.Some? <==> "userDetails" in principal && principal["userDetails"] != JNull)
      && (r.userDetails.Some? ==> r.userDetails.value == principal["userDetails"])
      && ("claims" !in principal ==> r.issuer == None)
      && ("claims" in principal && principal["claims"].JArray? ==>
            r.issuer == FindIssuer(principal["claims"].items).value)
      && ("claims" in principal && !principal["claims"].JArray? ==> r.issuer == None)
  {
    if body.Parsed? && body.value.JObject? {
      var principal := GetOr(body.value.fields, "clientPrincipal", JObject(map[]));
      if principal.JObject? {
        IssuerOfReadable(GetOr(principal.fields, "claims", JArray([])));
      }
    }
  }

  /** Extraction fails for an unparseable body, a body that is not a
      dictionary, a `clientPrincipal` that is present but not a dictionary,
      and `claims` the loop cannot get through; a principal that is absent
      counts as an empty one. */
  lemma ExtractFailures(body: Body)
    ensures body.Unparsable? ==> Extract(body).Err?
    ensures body.Parsed? && !body.value.JObject? ==> Extract(body).Err?
    ensures (body.Parsed? && body.value.JObject? && "clientPrincipal" in body.value.fields &&
             !body.value.fields["clientPrincipal"].JObject?) ==> Extract(body).Err?
    ensures body == Parsed(JObject(map[])) ==> Extract(body) == Ok(Principal(None, None))
  {
  }
}
