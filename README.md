# Tenant gate and identity handler

This project models the request gate of a small FastAPI web front end
(`app/backend/main.py`). The model has four parts:

- **The tenant gate.** The `validate_tenants` HTTP middleware reads the JSON
  body of every request. From `clientPrincipal` it takes `userDetails` and
  the issuer: the `val` of the first claim whose `typ` is `"iss"`. The tenant
  domain is the text after the last `@` of `userDetails`. The gate either
  - answers with one of three 403 JSON errors, or
  - stores `user_details` and `iss_val` on `request.state` and calls the
    next handler.
- **The consumer.** The `/api/test` route `test` reads those two attributes.
  It replies 200 with both, or 400 when either is missing.
- **Python semantics.** Python exceptions raised inside the gate's `try`
  are modelled explicitly; every one of them becomes the "must be JSON"
  reply. The one exception is the UTF-8 encoding failure of a string
  holding a lone surrogate (see "Left out"). So are the Python meanings of `dict.get`, truthiness, `in`,
  iteration and `str.split`.
- **Proofs.** The project proves properties of the decision, the issuer
  search, the domain split, the responses and the path of a request through
  the gate to the handler.

Modules, one per file:

- `Json` (`json.dfy`): deserialised JSON values, the request `Body`
  (unparseable or a value), and `dict.get` and truthiness.
- `Responses` (`responses.dfy`): the three rejection classes, their messages
  and the response datatype.
- `Strings` (`strings.dfy`): `str.split` on one character, `join`, `[-1]`,
  the domain of a user, and its characterisation as the text after the last
  `@`.
- `Claims` (`claims.dfy`): the claim extractor of lines 17-25. This includes
  the issuer search, both as a function and as the loop with `break` that the
  source runs.
- `Gate` (`gate.dfy`): the allow-list and the decision function `Decide`.
  `RequestState` is a class for `request.state`, and `ValidateTenants` is the
  middleware written step by step.
- `Handlers` (`handlers.dfy`): the `test` handler, `Serve`, the end to end
  path `HandleTestRequest`, and the worked scenarios.

How the model follows the code:

- `call_next(request)` is modelled as the caller dispatching on the gate's
  `Decision`. On `Admit` the caller runs the handler on the state the gate
  wrote (`HandleTestRequest`). On `Reject` the gate's response is returned.
- `Serve` is a function of the body alone, so an identical request always
  gets an identical decision and reply. `HandleTestRequest` starts every
  request with a fresh `RequestState`.

In these places the model follows the code exactly, where one might expect otherwise:

- A `clientPrincipal` that is present but `null` or not a dictionary is a
  "must be JSON" failure (line 18 then line 19 raises). It is not treated as
  an empty principal.
- A claim entry that is not a dictionary, reached before the first `"iss"`
  claim, makes the search fail.
- The first claim whose `typ` is `"iss"` ends the search even when it has no
  `val` (lines 23-25). The issuer is then `None`, even if a later `"iss"`
  claim has a value.
- `userDetails` is read as whatever JSON value it is (line 27), with these
  outcomes:
  - a falsy value is a missing identity;
  - a list or dictionary holding `"@"` passes line 27's test, and then
    `.split` raises (a malformed body);
  - a number or `True` raises at `'@' in` (a malformed body);
  - any other non-string is a missing identity.

## Model

| member | source | states |
|---|---|---|
| Json.Get | app/backend/main.py:19 | `.get` never yields JSON `null`: a missing key and a `null` value both read as `None`; a present non-null value is returned |
| Json.GetOr | app/backend/main.py:18-20 | `.get` with a default gives the default only for a missing key, and agrees with `Get` on a present key |
| Json.Truthy | app/backend/main.py:27 | only a present non-null value can be truthy, and a string is truthy iff it is non-empty |
| Responses.Message | app/backend/main.py:31-45 | the three error texts (no contract of its own: `MessageInjective` and `TenantMessageNamesDomain` state their properties) |
| Responses.ErrorBody | app/backend/main.py:31-106 | the `{"error": message}` content of every error reply (no contract of its own: `RejectionResponse` and `TestResponse` state its shape) |
| Responses.RejectionResponse | app/backend/main.py:30-38 | every rejection is a 403 whose JSON body has the single key `error` |
| Responses.MessageInjective | app/backend/main.py:30-47 | the three error messages are pairwise distinct and a tenant refusal determines its domain, so a client can tell every rejection apart |
| Responses.TenantMessageNamesDomain | app/backend/main.py:31 | the tenant message carries the refused domain verbatim at a fixed position between the quotes |
| Responses.TenantMessageExample | app/backend/main.py:31 | the message for `evil.com` is `Tenant 'evil.com' is not allowed.` |
| Strings.Split | app/backend/main.py:28 | `split` always yields at least one piece, and exactly one iff the separator does not occur |
| Strings.Last | app/backend/main.py:28 | `[-1]`, the last piece (no contract of its own: the `LastPiece...` lemmas characterise it on a split) |
| Strings.Domain | app/backend/main.py:28 | the domain is an `@`-free suffix of the user: the whole user when it has no `@`, and otherwise the text directly after an `@`, hence after the last one |
| Strings.JoinSplit | app/backend/main.py:28 | joining the pieces of a split with the separator gives back the original string |
| Strings.SplitPiecesFree | app/backend/main.py:28 | no piece of a split contains the separator |
| Strings.SplitAfterPiece | app/backend/main.py:28 | splitting a separator-free piece, a separator and a rest gives the piece followed by the split of the rest |
| Strings.SplitJoin | app/backend/main.py:28 | splitting a join of separator-free pieces gives the pieces back (inverse of `JoinSplit`) |
| Strings.LastPieceIsSuffix | app/backend/main.py:28 | `split(sep)[-1]` is a suffix of the string, and the whole string when the separator is absent |
| Strings.LastPieceFollowsSeparator | app/backend/main.py:28 | when the separator occurs, the last piece is a proper suffix directly preceded by a separator |
| Strings.LastPieceAfterLastSeparator | app/backend/main.py:28 | `split(sep)[-1]` is exactly the text after the last separator: a separator-free suffix preceded by a separator, or the whole string when there is none |
| Strings.LastPieceAfter | app/backend/main.py:28 | for any index of a separator with no separator after it, `split(sep)[-1]` is the text after that index |
| Strings.DomainAfterLastAt | app/backend/main.py:27-28 | for a user containing `@`, the domain has no `@` and the user is a prefix, an `@`, then the domain |
| Strings.DomainOfNestedAt | app/backend/main.py:28 | `a@b@microsoft.com` has domain `microsoft.com` (the last `@` wins) |
| Strings.DomainOfTrailingAt | app/backend/main.py:28 | `alice@` has the empty domain |
| Claims.IsIssClaim | app/backend/main.py:23 | the test `claim.get('typ') == 'iss'` on a dictionary claim (no contract of its own: `FirstIssClaimWins`, `NoIssClaim` and `FindIssuerFails` use it) |
| Claims.FindIssuer | app/backend/main.py:22-25 | the search fails only as a malformed body, and an issuer found is never JSON `null` |
| Claims.IssuerOf | app/backend/main.py:20-25 | iterating a `claims` that is not a list, string or dictionary always fails as a malformed body |
| Claims.FirstIssClaimWins | app/backend/main.py:22-25 | when the first `"iss"` claim is at index k and every claim before it is a dictionary, the issuer is that claim's `val` |
| Claims.NoIssClaim | app/backend/main.py:21-25 | with only well-formed non-`"iss"` claims, the issuer is `None` |
| Claims.FindIssuerFails | app/backend/main.py:22-47 | the search fails iff a non-dictionary entry is reached before any `"iss"` claim |
| Claims.LaterClaimsIgnored | app/backend/main.py:23-25 | nothing after the first `"iss"` claim affects the outcome, whatever is appended |
| Claims.SearchIssuer | app/backend/main.py:20-25 | the `for` loop with `break` over any JSON `claims` computes exactly `IssuerOf` |
| Claims.FirstOfTwoIssuers | app/backend/main.py:22-25 | with claims `aud`, `iss`, `iss` the first `iss` value is the issuer |
| Claims.IssClaimWithoutValue | app/backend/main.py:23-25 | an `"iss"` claim without `val` ends the search with no issuer, despite a later valued `"iss"` claim |
| Claims.Extract | app/backend/main.py:16-47 | extraction fails only as a malformed body, and succeeds only for a body that is a JSON dictionary (the exact success condition and result are `ExtractSucceeds`) |
| Claims.IssuerOfReadable | app/backend/main.py:20-25 | the issuer search gets through `claims` iff every non-dictionary entry of a list follows an `"iss"` claim, or `claims` is an empty string or dictionary (which gives no issuer) |
| Claims.ExtractSucceeds | app/backend/main.py:17-25 | extraction succeeds iff the body is a dictionary whose `clientPrincipal` is absent, or a dictionary whose `claims`, if present, are readable; the principal is then the non-null `userDetails` verbatim (None when absent or null) and the first-`iss` issuer of a claims list (None without claims) |
| Claims.ExtractFailures | app/backend/main.py:17-47 | an unparseable body, a non-dictionary body and a present non-dictionary `clientPrincipal` all fail; `{}` gives an empty principal |
| Gate.Decide | app/backend/main.py:16-47 | an admitted user contains `@` and its domain is on the list; a tenant refusal names a domain not on the list (full characterisation in `TenantDecision`, `AdmittedIff`, `DecisionOrder`) |
| Gate.AllowedTenantsHaveNoAt | app/backend/main.py:15 | every allowed tenant is free of `@`, so each can follow the last `@` |
| Gate.Identifier | app/backend/main.py:27-38 | the identifier is usable iff `userDetails` is a string containing `@`, and is then that string verbatim; a falsy value or an `@`-free string is a missing identity; `True` or a non-zero number is a malformed body; a non-empty list or dictionary is a malformed body iff it holds `"@"` (as element or key) and a missing identity otherwise |
| Gate.PrincipalDecision | app/backend/main.py:17-41 | for any dictionary body whose `clientPrincipal.userDetails` is a string with an `@` and whose claims are well formed, and whatever its other keys, the gate admits that string verbatim with the claims' issuer when the text after its last `@` is allowed, and otherwise refuses naming that text |
| Gate.TenantDecision | app/backend/main.py:27-41 | for a usable user, the domain after its last `@` decides alone: admit with the user and issuer when listed by exact equality, otherwise refuse naming the domain |
| Gate.DecisionOrder | app/backend/main.py:16-47 | shape failures come first, then a missing identity; a tenant refusal only happens after both passed and names a domain not on the list |
| Gate.AdmittedIff | app/backend/main.py:27-41 | a request is admitted iff extraction and the identifier succeed and the domain is allowed; the admitted identity is the input user verbatim (containing `@`) and the extracted issuer |
| Gate.ClaimsBeforeUser | app/backend/main.py:20-27 | in any dictionary body, malformed claims give the "must be JSON" rejection even when `userDetails` is also missing |
| Gate.MissingUser | app/backend/main.py:19-38 | in any dictionary body with well-formed claims, an absent, null, empty or `@`-free `userDetails` gives the missing-identity rejection |
| Gate.RequestState.constructor | app/backend/main.py:102-103 | a fresh request state has neither attribute set |
| Gate.ValidateTenants | app/backend/main.py:12-50 | the middleware computes `Decide` on the fixed allow-list; on admission the state holds the user and issuer; on every rejection the state is unchanged |
| Handlers.TestResponse | app/backend/main.py:104-115 | 200 iff both attributes are set, echoing them under `userDetails` and `iss`; otherwise 400 with `userDetails or iss claim not found` |
| Handlers.TestHandler | app/backend/main.py:102-115 | reading the two attributes of the request state, `test` answers 200 with exactly the keys `userDetails` and `iss` iff both are set |
| Handlers.Serve | app/backend/main.py:12-115 | the client sees 403, 200 or 400, and 200 only for an admitted request |
| Handlers.HandleTestRequest | app/backend/main.py:12-115 | a request through the gate on a fresh state, then on to `test` when admitted, yields exactly `Serve` |
| Handlers.ServeCases | app/backend/main.py:30-115 | rejections reach the client as 403 with their own message; an admitted request gets 200 with the user and issuer iff an issuer was found, and 400 otherwise; 403 occurs iff the gate rejected |
| Handlers.ServeUser | app/backend/main.py:27-115 | for a well-formed principal whose last `@` is at index k, the text after k decides between `test`'s reply to the stored identity and the tenant refusal |
| Handlers.AllowedUser | app/backend/main.py:15-28 | `alice@microsoft.com` has its last `@` at index 5 and an allowed tenant after it |
| Handlers.AdmittedScenarioExtract | app/backend/main.py:17-25 | the admitted example's principal extracts to the user and the issuer `idp1` |
| Handlers.AdmittedScenario | app/backend/main.py:12-115 | `alice@microsoft.com` with one `iss` claim `idp1` gets 200 echoing both |
| Handlers.RefusedTenantScenario | app/backend/main.py:28-33 | `bob@evil.com` gets 403 `Tenant 'evil.com' is not allowed.` |
| Handlers.EmptyClaimsExtract | app/backend/main.py:17-22 | an empty `claims` list extracts with no issuer |
| Handlers.EmptyObjectScenario | app/backend/main.py:18-38 | the body `{}` gets 403 `userDetails not found or invalid.` |
| Handlers.UnparsableScenario | app/backend/main.py:17-47 | a non-JSON body gets 403 `Request body must be JSON and contain valid clientPrincipal.` |
| Handlers.AdmittedWithoutIssuerScenario | app/backend/main.py:20-108 | an allowed user without claims is admitted with no issuer, and `test` answers 400 |
| Handlers.MissingClaimsExtract | app/backend/main.py:20 | a principal without `claims` extracts with no issuer |

## Left out

- FastAPI, Starlette and uvicorn plumbing are not modelled: `app.mount`, the templates, `FileResponse`, and the `index`, `favicon` and `hello` routes. They are framework wrappers with no decision in them.
- The JSON parser behind `request.json()` is not modelled. The body is an abstract input, either unparseable or a JSON value. Nothing models JSON floats, duplicate keys (Python keeps the last one) or key order.
- `async`/`await` are not modelled: the decision has no suspension point once the body is read.
- `call_next` is not modelled as a call: the caller dispatches on `Admit` instead, as `HandleTestRequest` shows.
- The commented-out `x-ms-client-principal` header variant is dead code and is not modelled.
- `print` logging is not modelled.
- JSON strings are modelled as sequences of Unicode scalar values, so strings holding a lone surrogate escape (`\udc00`), which Python's parser accepts, are not modelled. Nor is the failure they cause when `JSONResponse` encodes its content to UTF-8. Inside the gate (a tenant refusal naming such a domain, lines 30-33) that failure would give the "must be JSON" reply. In `test` (lines 109-115, outside any `try`) it would give a 500.
- The entries of a non-empty string or dictionary `claims` are not modelled one by one. Python yields strings there, which have no `.get`, so the loop fails at the first entry either way.
