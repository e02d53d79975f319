# Crucible REST client: request targets and response handling

A Dafny model of the core of a VS Code extension's client for the Crucible
code-review server (the `fisheye-crucible` REST API).

- **`RestUri`** is the request-target builder. It holds a base path, an ordered list of
  path segments and an insertion-ordered map of query arguments. `addPart` and `setArg`
  change it in place, and `str()` renders `base/seg1/seg2...?pair&pair...`.
- **`Response`** is the immutable envelope of one HTTP exchange. Its readers are `get(code)`
  and `getError(fallback)`.
- **`CrucibleApi`** is the facade. Each endpoint starts from a fresh builder for one of
  four resource roots, appends its segments and sets its arguments. It sends the request
  with one HTTP verb and turns the response into a resolved or rejected promise.

The model has nine modules:

| file | module | what it holds |
|---|---|---|
| `wrappers.dfy` | `Wrappers` | `Option`, for `T \| undefined` |
| `js_values.dfy` | `JsValues` | JavaScript values: `== null`, truthiness, `String(v)`, property access |
| `uri_encoding.dfy` | `UriEncoding` | `encodeURI` / `encodeURIComponent` (UTF-8, `%XX`), and a decoder proved to invert them |
| `texts.dfy` | `Texts` | `Array.prototype.join` and its inverse `split` |
| `responses.dfy` | `Responses` | `Response.get` and `Response.getError` as functions |
| `rest_uri.dfy` | `RestUris` | the JavaScript `Map` as a value (`JsMap`), the specification functions `SetArgEffect`, `Path` and `Target`, and the class `RestUri`, whose methods update `parts` and `args` in place |
| `review_types.dfy` | `ReviewTypes` | the `ReviewFilter` and `ReviewState` string unions |
| `crucible_api.dfy` | `CrucibleApi` | see below |
| `query_strings.dfy` | `QueryStrings` | a reader of query strings, used to measure the builder's output against the evidently intended one |

`CrucibleApi` holds:
- every public endpoint as a constructor of a per-resource datatype;
- `RequestOf`, the root, verb, segments, `setArg` calls and body each endpoint uses;
- `Build`, which replays those calls on a `RestUri` object;
- `KindOf` and `Classify`, the `.then` rule of each endpoint;
- `Settle`, which adds the `.catch`.

The code's quirks are modelled as written:
- value-first query pairs;
- array arguments that keep their last element;
- `getReviewTransitions` using the `actions` route;
- two reads sent as DELETE;
- search dates reduced to their millisecond component.

Each quirk is logged under "Findings" next to a corrected definition.

Two behaviours of the code that a reader might not expect, both modelled as written:
- `Map.prototype.forEach` passes the value first, so `str()` renders `value=key` (see Findings).
- A data endpoint resolves only with a truthy body; a 200 with `0`, `""` or `false` rejects
  (`Classify`, `EmptySuccessRejectsData`).

## Model

| member | source | states |
|---|---|---|
| `Responses.Response.Get` | src/util/restUri.ts:14-22 | yields the body iff an expected code is given, is non-zero, equals the status, and the body is not null/undefined; what it yields is the body |
| `Responses.Response.GetError` | src/util/restUri.ts:24-35 | a truthy body is returned unchanged; any other body gives the synthetic record with the fallback message; the result is always truthy |
| `Responses.SyntheticError` | src/util/restUri.ts:25-28 | the made-up record has `code` `'Unknown'` and the given `message` |
| `Responses.GetAtMostOneCode` | src/util/restUri.ts:14-22 | a response yields its body for at most one expected code |
| `Responses.GetNeedsCode` | src/util/restUri.ts:15-17 | with no code, or code 0, `get` never yields the body |
| `Responses.GetErrorAgreesWithGet` | src/util/restUri.ts:14-35 | when `get(code)` yields a truthy body, `getError` returns that same body |
| `Responses.GetErrorOfEmptyBody` | src/util/restUri.ts:24-34 | a null/undefined body gives `{code:'Unknown', message: fallback}`, with `'Unknown error'` by default |
| `Responses.GetErrorMayLackMessage` | src/util/restUri.ts:29-31 | for every response whose body is truthy but not a record (a plain string, a number, `true`, an array), `getError` returns the body as is, and that "error" has no `message` |
| `RestUris.JsMap.Set` | src/util/restUri.ts:53 | `Map.set`: the key maps to the value; every other key and value is unchanged; a new key goes last in the order, an existing key keeps its position |
| `RestUris.SetShape` | src/util/restUri.ts:53 | `Map.set` adds its key to the key set, leaves every other entry, and keeps the earlier order as a prefix |
| `RestUris.SetTwice` | src/util/restUri.ts:51 | setting a key twice equals setting it once to the second value |
| `RestUris.SetEachKeepsLast` | src/util/restUri.ts:50-51 | one `set` per array element equals one `set` of the last element; an empty array changes nothing |
| `RestUris.SetArgCases` | src/util/restUri.ts:48-57 | `setArg`: null/undefined and `[]` leave the map unchanged; a non-empty array acts as its last element; any other value is `set` |
| `RestUris.SetArgEffect` | src/util/restUri.ts:48-57 | `setArg` keeps the map well-formed; it adds the key exactly when the value is neither null/undefined nor `[]`, leaves every other entry as it was, and keeps the earlier keys in their places |
| `RestUris.EncodedParts` | src/util/restUri.ts:65 | one encoded segment per segment, in order: segment i becomes `encodeURI(parts[i])` |
| `RestUris.PathOfBase` | src/util/restUri.ts:65-67 | with no segments the path is the base |
| `RestUris.PathAppend` | src/util/restUri.ts:65-67 | each segment adds `/` plus its `encodeURI` to the end of the path, in order |
| `RestUris.PlainSegmentInPath` | src/util/restUri.ts:65-67 | a segment of letters and digits (`details`, `filter`, ...) is appended verbatim |
| `RestUris.QueryPairs` | src/util/restUri.ts:68-71 | one pair per map entry, in insertion order; pair i is `encodeURI(String(value)) + '=' + encodeURI(key)` for the i-th key, value first |
| `RestUris.QuestionMarkInPath` | src/util/restUri.ts:64-67 | the path holds `?` iff the base or some segment does (`encodeURI` keeps `?`) |
| `RestUris.TargetShape` | src/util/restUri.ts:64-75 | the target is the path alone with no arguments, else path + `?` + pairs joined by `&` |
| `RestUris.Target` | src/util/restUri.ts:64-75 | the target starts with the path; it is longer than the path exactly when some argument is set, and then the next character is `?` |
| `RestUris.QuestionMarkIffArgs` | src/util/restUri.ts:72-74 | when neither the base nor a segment holds `?`, the target holds `?` iff an argument is set |
| `RestUris.QueryPairsSplit` | src/util/restUri.ts:68-73 | when no key or rendered value holds `&`, splitting the query at `&` gives back exactly the pairs |
| `RestUris.RestUri.constructor` | src/util/restUri.ts:39-46 | `parts` is the given segments in order, `args` is empty, and the base is kept |
| `RestUris.RestUri.AddPart` | src/util/restUri.ts:59-62 | appends exactly the segment, leaves the arguments unchanged, returns the same object |
| `RestUris.RestUri.SetArg` | src/util/restUri.ts:48-57 | the new argument map is `SetArgEffect` of the old; segments are unchanged; returns the same object |
| `RestUris.RestUri.Str` | src/util/restUri.ts:64-75 | the rendered string is `Target(base, parts, args)` |
| `RestUris.RenderArgs` | src/util/restUri.ts:68-71 | the pairs pushed by the `forEach` are the rendered pairs of the map, one per entry, in insertion order |
| `UriEncoding.Encode` | src/util/restUri.ts:65-70 | the result is made only of kept characters, `%` and hex digits; a string of kept characters is its own encoding; the result is never shorter than the input |
| `UriEncoding.EncodeAppend` | src/util/restUri.ts:65-70 | encoding distributes over concatenation |
| `UriEncoding.DelimiterInEncoding` | src/util/restUri.ts:65-70 | a delimiter (`?`, `&`, `=`, `/`) is in an encoding iff the input had it and the mode keeps it |
| `UriEncoding.DecodeEncode` | src/util/restUri.ts:65-70 | percent-decoding followed by UTF-8 decoding recovers every encoded string |
| `UriEncoding.EncodeInjective` | src/util/restUri.ts:65-70 | different strings have different encodings |
| `JsValues.ToString` | src/util/restUri.ts:70 | `String(v)` of a string is that string |
| `JsValues.NatToStringRoundTrip` | src/util/restUri.ts:70 | the decimal digits `String(n)` writes for a natural number read back as `n` |
| `JsValues.Value.Member` | src/crucible/api.ts:78-79 | `e.message` is `undefined` for non-objects and for objects without the field |
| `Texts.JoinAppend` | src/util/restUri.ts:67-73 | `join` with one more element adds the separator and the element |
| `Texts.SplitJoin` | src/util/restUri.ts:73 | splitting a join at a separator no element holds gives back the elements |
| `Texts.NotInJoin` | src/util/restUri.ts:73 | a character in neither the elements nor the separator is not in their join |
| `ReviewTypes.ReviewFilter.Name` | src/crucible/interfaces/Review.ts:5-18 | each filter's name is a non-empty camel-case literal |
| `ReviewTypes.ReviewState.Name` | src/crucible/interfaces/Review.ts:20 | each state's name is capitalised and has no `,`, so the `states` list can be split again |
| `ReviewTypes.FilterNamesDistinct` | src/crucible/interfaces/Review.ts:5-18 | different filters have different names |
| `ReviewTypes.StateNamesDistinct` | src/crucible/interfaces/Review.ts:20 | different states have different names |
| `CrucibleApi.BasePathsDistinct` | src/crucible/api.ts:61-75 | the four roots (`users-v1`, `search-v1`, `repositories-v1`, `reviews-v1`) are distinct and hold no `?` |
| `CrucibleApi.BaseUri` | src/crucible/api.ts:61-75 | every getter read gives a fresh builder with the root's base, no segments and no arguments |
| `CrucibleApi.Build` | src/crucible/api.ts:97-98 | replaying an endpoint's `addPart`/`setArg` chain on a fresh builder leaves exactly its segments and `ArgsOf` its calls |
| `CrucibleApi.RenderTarget` | src/crucible/api.ts:97-99 | the builder's `str()` after the chain equals `TargetOf` the request |
| `CrucibleApi.OptionalString` | src/crucible/api.ts:890-893 | an omitted string filter is undefined (so it is skipped), a given one is that string |
| `CrucibleApi.OptionalBool` | src/crucible/api.ts:896-898 | an omitted flag is skipped, and `false` is sent as `false` |
| `CrucibleApi.StatesArg` | src/crucible/api.ts:894 | states are joined by `,`; an empty array is truthy, so it sends `""` |
| `CrucibleApi.Milliseconds` | src/crucible/api.ts:900-901 | `getMilliseconds()` is in 0..999 and differs from the timestamp by whole seconds |
| `CrucibleApi.DateArg` | src/crucible/api.ts:900-901 | an omitted date is skipped; a given date `t` is sent as the number `Milliseconds(t)`, which lies in 0..999 |
| `CrucibleApi.StatesArgReadsBack` | src/crucible/api.ts:894 | a non-empty `states` list joined with `,` splits back into the state names in order, and each name belongs to exactly one state |
| `CrucibleApi.Present` | src/util/restUri.ts:49 | the calls that set something are among the calls, none has a null/undefined value, and there are no more of them than calls |
| `CrucibleApi.LastKeyIsNew` | src/util/restUri.ts:48-57 | with distinct keys and no arrays, the last call's key is not yet in the map built by the calls before it |
| `CrucibleApi.PresentAll` | src/util/restUri.ts:49 | when no value is null/undefined, every call sets its key |
| `CrucibleApi.ArgsOfKeys` | src/util/restUri.ts:48-57 | after any `setArg` calls without arrays, every key in the map is the key of some call |
| `CrucibleApi.SetArgNewKey` | src/util/restUri.ts:48-57 | `setArg` of a non-array value under a new key: null/undefined leave the map as it was; otherwise the key is appended to the order and maps to the value |
| `CrucibleApi.ArgsOfEntries` | src/util/restUri.ts:48-57 | for calls with distinct keys and no arrays: a call's key is present iff its value is not null/undefined, and then maps to that value |
| `CrucibleApi.ArgsOfOrder` | src/util/restUri.ts:48-57 | for calls with distinct keys and no arrays: the map's order is the keys of the calls that set something, in call order |
| `CrucibleApi.ArgsOfAllSet` | src/util/restUri.ts:48-57 | for calls with distinct keys that all set strings: the map's order is exactly the call keys and each key maps to its value |
| `CrucibleApi.OmittedArgsSetNothing` | src/util/restUri.ts:49 | calls whose values are all null/undefined leave the map empty |
| `CrucibleApi.SearchArgKeys` | src/crucible/api.ts:890-901 | the search sets twelve distinct keys, in the code's order |
| `CrucibleApi.SearchArgEntry` | src/crucible/api.ts:890-901 | the i-th call is under the i-th search key and sets it, to its value, iff the value is not null/undefined |
| `CrucibleApi.SearchTextArgs` | src/crucible/api.ts:890-899 | `title`, `author`, `moderator`, `creator`, `reviewer`, `project`: each is an argument iff given, with the given string |
| `CrucibleApi.SearchFlagArgs` | src/crucible/api.ts:896-898 | `orRoles`, `complete`, `allReviewersComplete`: each is an argument iff given, with the given boolean (including `false`) |
| `CrucibleApi.SearchStateAndDateArgs` | src/crucible/api.ts:894-901 | `states` is set iff given, to the names joined by `,`; each date is set iff given, to its millisecond component |
| `CrucibleApi.SearchOnlyFilterKeys` | src/crucible/api.ts:889-901 | the search sets no key other than its twelve filters |
| `CrucibleApi.NoFiltersSetNothing` | src/crucible/api.ts:889-901 | with every filter omitted, the argument map is empty |
| `CrucibleApi.SearchWithoutFilters` | src/crucible/api.ts:885-901 | with every filter omitted, the target has no `?` |
| `CrucibleApi.ChangeSetKeysDistinct` | src/crucible/api.ts:363-368 | the six `searchChangeSets` keys are distinct |
| `CrucibleApi.SearchChangeSetsPathTwice` | src/crucible/api.ts:359-368 | `searchChangeSets` has segments `changes/<repository>/<path>`, argument order `path, oldestCsid, includeOldest, newestCsid, includeNewest, max`, and `path` again as the first argument |
| `CrucibleApi.ArrayArgKeepsLast` | src/util/restUri.ts:50-51 | an array argument on a fresh builder leaves nothing when empty, else one entry with the last element |
| `CrucibleApi.RevisionsKeepLast` | src/crucible/api.ts:1833-1898 | add and delete revisions send the same arguments: nothing for no revisions, else only `rev` = the last revision |
| `CrucibleApi.UsernameFilterKeepsLast` | src/crucible/api.ts:95-98 | `getUsers` sends no filter for `[]`, else only the last user name |
| `CrucibleApi.DetailedVariants` | src/crucible/api.ts:800-821 | each internal helper's detailed request is its plain one with `details` appended as the last segment, and nothing else changes; likewise for `getReviews` and `getReviewsDetailed` |
| `CrucibleApi.FacadeError` | src/crucible/api.ts:77-80 | a truthy body gives its `message` member; a falsy body gives `'unknown error'`; so a truthy non-object body gives `undefined` |
| `CrucibleApi.ConflictOrError` | src/crucible/api.ts:1446-1451 | the rejection of a transition: the body itself when the status is 409 and the body is truthy, else the facade's `getError` |
| `CrucibleApi.Classify` | src/crucible/api.ts:1441-1452 | data endpoints resolve iff the status is 200 and the body is truthy, with the body; void endpoints resolve iff the status is 200; resolving implies status 200; rejections carry the facade's error, and for transitions a truthy 409 body comes first |
| `CrucibleApi.Settle` | src/crucible/api.ts:108-110 | a transport failure rejects with `undefined`; resolving needs a received 200 |
| `CrucibleApi.KindOf` | src/crucible/api.ts:95-2454 | only review endpoints are transitions; every user, search, repository and review-list endpoint is a data endpoint |
| `CrucibleApi.RequestOf` | src/crucible/api.ts:95-2454 | each endpoint starts from its group's root (users, search and repositories each only from their own); uploads occur only on review endpoints and raw downloads only on repository endpoints |
| `CrucibleApi.TransitionEndpoints` | src/crucible/api.ts:1344-1458 | exactly `completeReview` and `uncompleteReview` (void), and `changeReviewState` (data), look at a 409 body |
| `CrucibleApi.FacadeErrorVsGetError` | src/crucible/api.ts:77-80 | for a truthy body the facade's reason is the `message` of what `Response.getError` returns; for an empty body the fallbacks differ (`'unknown error'` vs `'Unknown error'`) |
| `CrucibleApi.TextErrorLooksLikeTransportFailure` | src/crucible/api.ts:104-110 | at any status other than 200, and other than 409 on a transition endpoint, a non-empty text body rejects with `undefined`, the same as a transport failure |
| `CrucibleApi.TextConflictRejectsWithText` | src/crucible/api.ts:1446-1451 | on a transition endpoint, a 409 with a non-empty text body rejects with that text |
| `CrucibleApi.EmptySuccessRejectsData` | src/crucible/api.ts:101-106 | a 200 with a falsy body rejects a data endpoint with `'unknown error'` |
| `CrucibleApi.TransitionsSameAsActions` | src/crucible/api.ts:1674-1720 | `getReviewTransitions` sends exactly the `<id>/actions` request of `getReviewActions` |
| `CrucibleApi.ReadsSentAsDelete` | src/crucible/api.ts:1908-1955 | `getReviewItem` sends the same request as `removeReviewItem`, and `getReviewReviewers` is a DELETE too, although neither removes anything |
| `CrucibleApi.SearchDatesCollide` | src/crucible/api.ts:900-901 | two search dates a whole number of seconds apart give the same request |
| `CrucibleApi.TimestampArg` | src/crucible/api.ts:900-901 | the corrected date argument is the timestamp itself, and is skipped iff omitted |
| `CrucibleApi.IntendedTransitionsRoute` | src/crucible/api.ts:1702-1720 | corrected: `getReviewTransitions` asks for `<id>/transitions`, a request different from `getReviewActions` |
| `CrucibleApi.IntendedReadsUseGet` | src/crucible/api.ts:1936-1955 | corrected: an endpoint sends DELETE iff its purpose is to remove something |
| `CrucibleApi.IntendedSearchDatesDistinct` | src/crucible/api.ts:900-901 | corrected: equal search requests have equal dates |
| `QueryStrings.SplitPair` | src/util/restUri.ts:70 | a piece without `=` is a name with an empty value |
| `QueryStrings.SplitPairAtFirst` | src/util/restUri.ts:70 | `name=value` splits back into both, when the name has no `=` |
| `QueryStrings.ReadRenderedPair` | src/util/restUri.ts:70 | one pair encoded on both sides is a non-empty piece that splits at its `=` into the two encodings, each decoding back to its side |
| `QueryStrings.DecodeRenderedPairs` | src/util/restUri.ts:70 | pairs encoded on both sides decode back to their entries, when the encoding leaves no `=` in a name |
| `QueryStrings.SplitRenderedPairs` | src/util/restUri.ts:73 | rendered pairs without `&` survive the split of their join |
| `QueryStrings.ValueFirstMisread` | src/util/restUri.ts:69-73 | as written: when no key and no rendered value holds `&`, `=` or `#`, a rendered query reads back with every name and value exchanged |
| `QueryStrings.OneArgumentMisread` | src/util/restUri.ts:69-71 | as written: when neither `k` nor `v` holds `&`, `=` or `#`, `setArg(k, v)` with `k != v` is not read back as `k = v` but as `v = k` |
| `QueryStrings.QueryPart` | src/util/restUri.ts:72-74 | a reader of the target takes the query only up to the first `#` (section 3.4 of RFC 3986): a prefix without `#`, the whole text when it has none |
| `QueryStrings.NoFragmentInRendered` | src/util/restUri.ts:69-73 | the joined pairs hold no `#` when the encoding escapes `#` or no name or value holds one, so the whole query is read |
| `QueryStrings.ParseEmptyQuery` | src/util/restUri.ts:72-74 | an empty query reads back as no entries |
| `QueryStrings.ParseIntendedQuery` | src/util/restUri.ts:68-73 | corrected: a query of name-first pairs through `encodeURIComponent` reads back as exactly its entries, whatever characters they hold |
| `QueryStrings.IntendedTargetReadsBack` | src/util/restUri.ts:64-75 | corrected: the target is the path, `?`, then a query that reads back as the arguments in insertion order |
| `QueryStrings.IntendedEntries` | src/util/restUri.ts:48-57 | corrected: every entry of a `setArg` chain is named by one of its calls |
| `QueryStrings.EntriesOfNewKey` | src/util/restUri.ts:48-57 | setting a new key adds its entry at the end of the map's entries |
| `QueryStrings.IntendedEntriesAgree` | src/util/restUri.ts:48-57 | corrected: for calls with distinct keys and no arrays, the corrected reading gives exactly the entries of the map the builder builds, in order, so the fix changes only arrays |
| `QueryStrings.RevisionsAllSent` | src/crucible/api.ts:1833-1898 | corrected: add and delete revisions make the same calls, their corrected reading is one `rev` entry per revision in order, and that query reads back as exactly those entries |

`CrucibleApi.IntendedRequestOf` (the corrected requests) is a helper without a row of its own; what it states is in the `Intended…` lemmas above.

## Left out

- The HTTP verb methods `get`, `create`, `update`, `del` and `uploadFile` of the builder are left out. They call `typed-rest-client`, which is not part of this model. Their result is the parameter `Exchange` of `Settle`: either a received `Response` or a transport failure.
- `loadFile` is left out: temporary files, streams and `JSON.parse` are I/O. `getFileRevisionContent` is modelled only up to its request, with verb `LoadFile`.
- Authentication (`BasicCredentialHandler`) and the JSON request headers are library objects and are left out. So is the request id string each endpoint passes to the client.
- The Promise machinery is reduced to its outcome: `Outcome` is what the promise settles with, and asynchrony and ordering are not modelled.
- Numbers are integers: no floating point, `NaN` or `Infinity`. A `Date` is its millisecond timestamp, and `getMilliseconds` is `t % 1000`, which agrees with JavaScript for negative `t` too. Local-time zones shift by whole seconds and so do not change it.
- Request bodies (reviews, comments, patches, summaries) and the upload stream are opaque `Value`s. Their TypeScript interfaces have no behaviour.
- `Wrappers`, `JsValues`, `UriEncoding` and `Texts` model the JavaScript built-ins the core calls. `String(v)` of an object is `[object Object]`; custom `toString` methods are not modelled.
- Dafny characters are Unicode scalar values, so a string with a lone surrogate, on which `encodeURI` throws, cannot be formed.
- `RestUris.RestUri.AddPart` and `RestUris.RestUri.SetArg` return the builder itself (`self == this`), as the chaining does. Aliasing beyond that is not modelled: nothing else holds a reference to a builder.
- `JsValues.ToString`: its contract states only that `String` of a string is that string. The other cases (`undefined`, booleans, numbers, arrays, `[object Object]`) are in its body and are not restated.
- `JsValues.Value.Member` models only an object's own data members, such as `message` and `code`. Built-in members are left out: a string's or array's `length`, and inherited members such as `toString`. The facade reads only `message`, so this does not change its outcomes.
- `CrucibleApi.Settle` for `getFileRevisionContent` models nothing real. That endpoint goes through `loadFile` (src/util/restUri.ts:176-194), which always reports status 200 and never rejects. Its `Exchange` and `Classify` outcome are not what the code does.
- The VS Code user interface and the web-scraping tool are outside the core.

## Findings

| source | as written | input that shows it | evidently intended | confidence | as-written member | corrected member |
|---|---|---|---|---|---|---|
| src/util/restUri.ts:69-71 | `this.args.forEach((k, v) => ...)` names the value `k` and the key `v`, so each pair is `encodeURI(value)=encodeURI(key)`; `encodeURI` also keeps `&`, `=` and `#` | `setArg('term', 'x')` renders `?x=term`, which a server reads as `x` = `term` | `encodeURIComponent(key)=encodeURIComponent(value)` | high; not executed | `QueryStrings.ValueFirstMisread` | `QueryStrings.ParseIntendedQuery` |
| src/crucible/api.ts:900-901 | `fromDate.getMilliseconds()` sends only the millisecond component, 0 to 999 | two dates one second apart (`t` and `t + 1000`) give the same request | the timestamp (`getTime()`) | high; not executed | `CrucibleApi.SearchDatesCollide` | `CrucibleApi.IntendedSearchDatesDistinct` |
| src/crucible/api.ts:1942 | `getReviewItem` (and `getReviewReviewers`, line 2189) send DELETE | `getReviewItem('CR-1', 'CRF-2')` sends the request of `removeReviewItem('CR-1', 'CRF-2')` | GET | high; not executed | `CrucibleApi.ReadsSentAsDelete` | `CrucibleApi.IntendedReadsUseGet` |
| src/crucible/api.ts:1706 | `getReviewTransitions` adds the segment `actions` | `getReviewTransitions('CR-1')` asks for `CR-1/actions`, like `getReviewActions('CR-1')` | the segment `transitions` | high; not executed | `CrucibleApi.TransitionsSameAsActions` | `CrucibleApi.IntendedTransitionsRoute` |
| src/util/restUri.ts:50-51 | an array argument calls `Map.set` once per element on the same key, so only the last element stays | `addRevisionsToReviewItem('CR-1', 'CRF-2', [3, 4])` sends `rev` 4 only | one `rev` pair per element, in order | high; not executed | `CrucibleApi.RevisionsKeepLast` | `QueryStrings.RevisionsAllSent` |
