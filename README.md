# Signed-request guard of the API controller base class

This project models, in Dafny, the decision logic that the PHP API controller base class
`Apis` (`application/common/controller/Apis.php`) runs before any API action:

- **Authentication routing** (`_initialize`). An action matched by `noNeedLogin` skips every check. Any other action needs a login (else 401). Unless it is matched by `noNeedRight`, it also needs the permission check (else 403). Only then does the signed-request gate run, and only when `checkParameters` is on.
- **Signed-request gate** (`filterParameters`, `filter`, `defendRepeat`). The gate checks, in order:
  - `timestamp`, `token`, `nonce` and `signature` must all be truthy (else 503);
  - `strtoupper(md5(json_encode(payload)))` must equal the supplied `signature` exactly (else 504);
  - the timestamp must not be older than `now - signExpire` (else 505);
  - the signature must not be live in the replay cache (else 555). If it is not, it is stored there for `signExpire` seconds.
  The payload is the request's parameters without the signature field, sorted by key.
- **Response envelope** (`result`, `success`, `error`). These build `{code, msg, time, data}` and choose the HTTP status. `result` always ends by throwing; here that is the `Halt` case of `Flow`.
- **Before-action hooks** (`beforeAction` and the constructor's loop). `only` takes precedence over `except`. A string filter is split on commas. A hook without options, or listed under a numeric key, always runs. The loop stops at the first hook that halts.

Modules: `PhpStrings` (string built-ins), `Canonicalizer` (filter, `ksort`, canonical payload),
`RequestGate` (the gate as a function, the replay cache class), `ResponseEnvelope`,
`ActionHooks`, and `ApiController`. `ApiController` holds the class `Apis`, whose methods work on the shared
`ReplayCache` object and are proved against the specification functions.

The collaborators the controller calls but does not define are parameters:
- `Primitives`: md5, `json_encode`, the `SORT_NATURAL` key order, and the numeric reading of the timestamp that PHP's `<` applies to it;
- `AuthService`: `match`, `isLogin` after `init(token)`, and `check`;
- the clock `now` and the request time.

MD5 and `json_encode` are only assumed to be functions (same input, same output), not collision-free. The key order is assumed to be a strict total order wherever uniqueness of the sorted payload is proved.

Behaviour of the code worth knowing:
- The signature comparison is exact (`!==`) against an upper-cased digest, so a supplied signature with a lower-case letter is always rejected (`LowerCaseSignatureRejected`).
- Presence means PHP truthiness, so a field equal to `"0"` counts as missing.
- The freshness check is one-sided. A request whose timestamp lies far enough in the future is accepted again once its replay-cache entry has expired (`ReplayAfterWindow`).
- The field left out of the payload is `signatureStr` (or `"signature"` when that is falsy), but the supplied signature is always read from the field `signature`. The signing round trip (`ClientSignatureVerifies`) therefore holds when the excluded field is `signature`, which is the default.

## Model

| member | source | states |
|---|---|---|
| `PhpStrings.Explode` | application/common/controller/Apis.php:314-316 | `explode(',')` yields at least one piece and no piece contains a comma |
| `PhpStrings.ImplodeExplode` | application/common/controller/Apis.php:314-316 | joining the pieces of a split filter string with commas gives the string back |
| `PhpStrings.ExplodeImplode` | application/common/controller/Apis.php:322-324 | splitting a comma-joined list of comma-free names gives the list back |
| `PhpStrings.Upper` | application/common/controller/Apis.php:194 | `strtoupper` keeps the length, upper-cases ASCII letters only, and leaves no lower-case ASCII letter |
| `PhpStrings.Lower` | application/common/controller/Apis.php:127-128 | `strtolower` keeps the length, lower-cases ASCII letters only, and leaves no upper-case ASCII letter |
| `PhpStrings.DotsToSlashes` | application/common/controller/Apis.php:133 | `str_replace('.', '/')` replaces every dot and changes nothing else |
| `Canonicalizer.ExcludedKey` | application/common/controller/Apis.php:214-220 | the filtered-out field is `signatureStr` when that is truthy, else `"signature"` |
| `Canonicalizer.FilteredMembers` | application/common/controller/Apis.php:190 | `array_filter` with `filter` keeps exactly the entries whose key is not the excluded field |
| `Canonicalizer.FilteredUniqueKeys` | application/common/controller/Apis.php:190 | the filtered copy still has each key once |
| `Canonicalizer.SortByKey` | application/common/controller/Apis.php:191 | a reference key sort returns a permutation of its input, sorted by key |
| `Canonicalizer.Canonical` | application/common/controller/Apis.php:190-191 | the payload holds exactly the request's entries minus the excluded field, as a multiset, sorted by key |
| `Canonicalizer.KSort` | application/common/controller/Apis.php:191 | `ksort` in place: the array ends sorted by key and is a permutation of what it held |
| `Canonicalizer.SortedArrangementUnique` | application/common/controller/Apis.php:191 | two key-sorted arrangements of the same entries are equal when a key determines its entry |
| `Canonicalizer.CanonicalAscending` | application/common/controller/Apis.php:190-191 | for a request with unique keys, the payload has each kept key exactly once, in strictly ascending key order |
| `Canonicalizer.CanonicalDeterminedByKeptEntries` | application/common/controller/Apis.php:190-191 | requests with the same kept entries have the same payload, whatever their order and whatever their signature value |
| `Canonicalizer.CanonicalReflectsKeptEntries` | application/common/controller/Apis.php:190-191 | conversely, equal payloads have the same kept entries |
| `Canonicalizer.CanonicalIgnoresOrder` | application/common/controller/Apis.php:190-191 | a request's parameters in any other order give the same payload |
| `Canonicalizer.TamperedValueChangesPayload` | application/common/controller/Apis.php:190-197 | changing the value of any signed parameter changes the payload that is hashed |
| `Canonicalizer.SortedKeptIsCanonical` | application/common/controller/Apis.php:190-194 | any key-sorted permutation of the kept entries is the canonical payload |
| `RequestGate.Lookup` | application/common/controller/Apis.php:183-186 | a request field is `null` exactly when no parameter has that key, and otherwise is a value the request carries under it |
| `RequestGate.Sign` | application/common/controller/Apis.php:194 | the expected signature contains no lower-case ASCII letter |
| `RequestGate.RepeatCheck` | application/common/controller/Apis.php:226-235 | a live entry gives 555 and leaves the cache unchanged. Otherwise the request is accepted, only the signature's entry is added or replaced, and it stays live for exactly `ttl` seconds |
| `RequestGate.Evaluate` | application/common/controller/Apis.php:181-207 | each code, iff its condition: 503 iff a field is missing; 504 iff the signature differs; 505 iff it matches but is stale; 555 iff fresh but live in the cache; accepted otherwise. Nothing else can come out, and the cache changes only on acceptance |
| `RequestGate.MissingFieldDecidedBeforeHashing` | application/common/controller/Apis.php:187-189 | with a field missing, the outcome is 503 with the cache unchanged, whatever the hash, encoding, order and number conversion |
| `RequestGate.LowerCaseSignatureRejected` | application/common/controller/Apis.php:194-199 | a supplied signature with a lower-case letter is always rejected with 504 |
| `RequestGate.ClientSignatureVerifies` | application/common/controller/Apis.php:186-199 | a request signed the way the server signs passes the integrity check, so it is accepted or rejected only as expired or duplicate |
| `RequestGate.FutureTimestampNeverExpires` | application/common/controller/Apis.php:202-204 | the freshness check is one-sided: a timestamp at or after `now` never gives 505 |
| `RequestGate.ExpiryBoundary` | application/common/controller/Apis.php:91 | with the default window of 500, a timestamp of `now - 500` passes and `now - 501` gives 505 |
| `RequestGate.SecondSubmissionRejected` | application/common/controller/Apis.php:226-234 | an accepted request sent again within the window gets 555, or 505 if stale by then |
| `RequestGate.ReplayAfterWindow` | application/common/controller/Apis.php:233 | after the window the same request is accepted again exactly when its timestamp is still fresh |
| `RequestGate.ReplayCache.Get` | application/common/controller/Apis.php:229 | `Cache::get` is truthy exactly when the key has a live entry |
| `RequestGate.ReplayCache.Set` | application/common/controller/Apis.php:233 | `Cache::set` makes the key live until `now + ttl` and changes no other entry |
| `ResponseEnvelope.StatusFor` | application/common/controller/Apis.php:298 | the status lies in [200, 1000). It equals the code iff the code is in that range, and is 200 otherwise |
| `ResponseEnvelope.Result` | application/common/controller/Apis.php:282-301 | the envelope carries the caller's code, message, time and data. The status is `header['statuscode']` when that is set, and then that header is not sent; otherwise the status is derived from the code |
| `ResponseEnvelope.Success` | application/common/controller/Apis.php:253-256 | `success` is `result` with the same time, message, data, code and headers, so `Result`'s envelope and status rules apply; the code defaults to 1 |
| `ResponseEnvelope.Error` | application/common/controller/Apis.php:266-269 | `error` is `result` with the same time, message, data, code and headers, so `Result`'s envelope and status rules apply; the code defaults to 0 |
| `ResponseEnvelope.DefaultCodesAnswer200` | application/common/controller/Apis.php:253-269 | the default codes 1 and 0 are carried in the envelope with HTTP status 200 |
| `ResponseEnvelope.RejectionCodesAreHttpStatuses` | application/common/controller/Apis.php:146-231 | each of 401, 403, 503, 504, 505 and 555 is also the HTTP status of its error response |
| `ActionHooks.ActionNames` | application/common/controller/Apis.php:313-324 | a string filter is split into comma-free names that join back to the string with commas, so they are its unique split; a list filter is used as given |
| `ActionHooks.OnlyTakesPrecedence` | application/common/controller/Apis.php:313-321 | with `only`, a hook runs iff the action is listed, and an `except` beside it is ignored |
| `ActionHooks.UnfilteredHookAlwaysRuns` | application/common/controller/Apis.php:106-112 | a hook listed under a numeric key, or without options, always runs |
| `ActionHooks.SelectedMembers` | application/common/controller/Apis.php:106-112 | a method is selected iff some entry of `beforeActionList` names it and that entry's filter admits the action |
| `ActionHooks.CsvFilterEqualsList` | application/common/controller/Apis.php:314-324 | a comma-separated `only` or `except` filter behaves as the list of its names |
| `ActionHooks.FilterExamples` | application/common/controller/Apis.php:313-329 | `only=["create"]` runs for "create" and not "update"; `except=["list"]` skips exactly "list" |
| `ActionHooks.Dispatch` | application/common/controller/Apis.php:106-112 | the hooks called are a prefix, in order, of those whose filter admits the action. All but the last continued, the last one decides the flow, and all of them run when the flow continues |
| `ActionHooks.AllHooksContinue` | application/common/controller/Apis.php:106-112 | when no admitted hook halts, every admitted hook is called and the flow continues |
| `ApiController.Path` | application/common/controller/Apis.php:127-133 | the permission path is the lower-cased controller with every dot made a slash, then `/`, then the lower-cased action. It has no dot in the controller part and no upper-case ASCII letter |
| `ApiController.GateFlow` | application/common/controller/Apis.php:188-203 | acceptance continues; a rejection halts with an error response carrying the rejection's code as code and status |
| `ApiController.Authorize` | application/common/controller/Apis.php:137-165 | a `noNeedLogin` action continues untouched. Otherwise: not logged in gives 401, and no permission gives 403 unless `noNeedRight` matches. The gate decides only after both checks pass and when `checkParameters` is on. The cache changes only on that path, and only when the request continues |
| `ApiController.AuthorizeCodes` | application/common/controller/Apis.php:137-159 | every halt of `_initialize` carries one of 401, 403, 503, 504, 505, 555 as code and status. The gate codes occur only where the gate runs |
| `ApiController.ReplayedRequestHalts` | application/common/controller/Apis.php:157-159 | a request that passed `_initialize` halts with 555 or 505 when repeated within the window |
| `ApiController.Apis.DefendRepeat` | application/common/controller/Apis.php:226-235 | the method's outcome and new cache are those of `RepeatCheck` |
| `ApiController.Apis.FilterParameters` | application/common/controller/Apis.php:181-207 | the filtered copy is sorted in place and hashed. The outcome and new cache are those of `Evaluate` |
| `ApiController.Apis.Initialize` | application/common/controller/Apis.php:119-165 | the routing's flow and new cache are those of `Authorize` |
| `ApiController.Apis.BeforeAction` | application/common/controller/Apis.php:311-332 | the hook is called iff its filter admits the action, and the flow is the hook's own when it is called |
| `ApiController.Apis.RunBeforeActions` | application/common/controller/Apis.php:105-112 | the loop's flow and the methods it called are those of `Dispatch` |
| `ApiController.Apis.Open` | application/common/controller/Apis.php:98-113 | the constructor runs `_initialize`. If that halts, no hook runs; otherwise the hooks run as in `Dispatch` |

## Left out

- The request filter `trim,strip_tags,htmlspecialchars` (line 122) is not modelled; parameters arrive as already filtered strings.
- How the token is sourced from a header, a request field or a cookie (line 131) is not modelled. The token is a field of `Request`.
- `Auth::init` on the `noNeedLogin` path (lines 162-164) has no effect the model can observe, so it is omitted. The Auth service's internals are not part of this model.
- The upload configuration, `Hook::listen`, `Config::set` (lines 167-172) and language loading (`loadlang`, lines 175 and 240-243) are configuration and file I/O, and are not modelled.
- The translation function `__()` is not modelled: messages are the untranslated keys.
- Serialisation by `Response::create` and the choice of json, xml or jsonp (lines 291 and 300) are framework rendering. Responses keep the envelope, status and headers only.
- `validate` and `validateFailException` (lines 340-396) delegate to a validator that is not part of this model.
- MD5, `json_encode`, the `SORT_NATURAL` comparison and PHP's string-to-number conversion are uninterpreted. No collision resistance is assumed.
- `\think\Cache` is a map from key to the last instant its entry is live (set at `now` with `ttl`, live while time is at most `now + ttl`). The cache driver is not part of this model, so this expiry rule is an assumption. Atomicity of the read-then-write under concurrent requests is not modelled: each request is one sequential step.
- PHP turns numeric-string array keys into integers. A strict `!==` comparison against such a key, and `json_encode` of a list-shaped array, are not modelled: keys are strings throughout.
- Parameter values that are arrays are not modelled; values are strings.
- `in_array` compares loosely (`"1" == "01"`). `ActionHooks.Runs` uses exact membership.
- `is_numeric` on a non-integer string key of `beforeActionList` is not modelled. A hook whose method does not exist is not modelled either.
- A hook's side effects are not modelled: it is abstracted to the `Flow` it ends with.
- `ApiController.Path`: ASCII-only case mapping, as `strtolower` does in the C locale. Locale-dependent lower-casing is not modelled.
- `Canonicalizer.CanonicalIgnoresOrder`, `Canonicalizer.SortedKeptIsCanonical`, `Canonicalizer.SortedArrangementUnique`, `ApiController.Apis.FilterParameters`, `ApiController.Apis.Initialize` and `ApiController.Apis.Open` assume the key order is a strict total order. PHP's `SORT_NATURAL` comparison can rank distinct keys as equal (for example `"01"` and `"1"`). For such keys `ksort` keeps their input order, so the real payload can depend on parameter order. Ties in the key order are not modelled.
- `RequestGate.ReplayAfterWindow`, `RequestGate.RepeatCheck` and `RequestGate.ReplayCache.Set`: an entry stored with `ttl = 0` expires here one instant after `now`. The framework's cache treats an expiry of 0 as "never expires", and that case is not modelled. With the default `signExpire` of 500 the two agree.
- `Canonicalizer.KSort` is an insertion sort. PHP's own sort algorithm is not modelled; only its contract (sorted and a permutation) is used.
- The `checkDatas` property (line 79) is declared but never read by the code, so it has no counterpart.
