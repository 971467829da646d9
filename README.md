# CLI for Microsoft 365: `spo app remove` and `aad oauth2grant list`, modelled in Dafny

This project models the decision logic of two commands of the CLI for Microsoft 365.

- **`spo app remove`** removes an app from the tenant app catalog or from a site-collection app catalog. It validates its options with an ordered rule table: scope, then catalog URL for the site-collection scope, then a GUID id, then the SharePoint URL check. It works out the effective scope and builds the removal request. Unless `--confirm` is given, it asks the user first. It also reports telemetry properties.
- **`aad oauth2grant list`** lists the OAuth2 permission grants of a service principal through Microsoft Graph. It checks that the object id is a GUID and builds an OData `$filter` query. It logs the result only when the result is not empty.

Both commands build their URLs with `encodeURIComponent`. The model defines it concretely as percent-encoding of the UTF-8 bytes of every character outside its unreserved set (as ECMA-262 defines `encodeURIComponent`; section 2.1 of RFC 3986). A decoder is its partner. The round trip is proved, and so is its consequence: different ids give different requests.

Each command body is modelled as a pure function from the answers of its collaborators to the trace of what the invocation does. The collaborators are the SharePoint URL lookup, the app catalog lookup, the HTTP call and the prompt. The trace lists prompts, lookups, requests, log lines and the single terminal outcome. `cb()` is the outcome `Done`. A rejection handed to the OData error handler is the outcome `Rejected`.

Modules:

- `Wrappers`: Option and Result.
- `Text`: lower-casing.
- `Uri`: encodeURIComponent and its decoder.
- `Guid`: the GUID rule.
- `Trace`: counting events.
- `Command`: the validator verdict `boolean | string`, option and request descriptors, and JavaScript truthiness of string options.
- `SpoAppRemove`: the `spo app remove` command.
- `AadOAuth2GrantList`: the `aad oauth2grant list` command.

Two facts about the code shape the model:

- `encodeURIComponent` leaves `'` unescaped, and so does the model. The validators admit only GUIDs, and `GuidEncodesToItself` proves that an accepted id holds no quote, so the quoted `GetById('…')` and `$filter` arguments cannot be closed early.
- The validators return literal messages, such as `<id> is not a valid GUID`, and the model returns the same strings.

## Model

| member | source | states |
|---|---|---|
| `SpoAppRemove.Validate` | src/m365/spo/commands/app/app-remove.ts:106-128 | Accepted options name a GUID and a scope that is `tenant` or `sitecollection`. Without a catalog URL, the answer is acceptance or one of the command's own three messages. `false` or another message can only come from the SharePoint URL check. |
| `SpoAppRemove.ValidateFollowsRuleTable` | src/m365/spo/commands/app/app-remove.ts:106-128 | The validator is the first rule that fires in the ordered table: unknown scope, then site collection without a catalog URL, then non-GUID id, then the SharePoint URL check. Otherwise the options are accepted. |
| `SpoAppRemove.UnknownScopeReportedFirst` | src/m365/spo/commands/app/app-remove.ts:108-112 | A given scope whose lower-case form is neither `tenant` nor `sitecollection` yields exactly the scope message, whatever the id and URL are. |
| `SpoAppRemove.SiteCollectionNeedsCatalog` | src/m365/spo/commands/app/app-remove.ts:114-116 | The site-collection scope, in any case, without an `appCatalogUrl` yields exactly the catalog message, even when the id is not a GUID. |
| `SpoAppRemove.NonGuidReported` | src/m365/spo/commands/app/app-remove.ts:119-121 | Once the scope rules pass, a non-GUID id yields exactly `<id> is not a valid GUID`, before any URL check. |
| `SpoAppRemove.UrlCheckDecidesLast` | src/m365/spo/commands/app/app-remove.ts:123-127 | Once the earlier rules pass, the result is the SharePoint URL check's answer if `appCatalogUrl` is given, and `true` otherwise. |
| `SpoAppRemove.ValidateAccepts` | src/m365/spo/commands/app/app-remove.ts:106-128 | The options are accepted (`true`) if and only if the scope is known, a site-collection scope has a catalog URL, the id is a GUID, and any given catalog URL passes its check. |
| `SpoAppRemove.ScopeCaseInsensitive` | src/m365/spo/commands/app/app-remove.ts:108-110 | A scope and its lower-case form give the same verdict and the same effective scope. |
| `SpoAppRemove.UpperCaseScopesAccepted` | src/m365/spo/commands/app/app-remove.ts:109-110 | `TENANT` and `SiteCollection` pass the scope rule and act on the `tenant` and `sitecollection` catalogs. |
| `SpoAppRemove.ScopeSuggestionsMatchValidator` | src/m365/spo/commands/app/app-remove.ts:93-96 | The values suggested for `--scope` are exactly the two lower-case scope names the validator knows (`IsKnownScope`). Each one passes the scope rule. |
| `SpoAppRemove.EffectiveScope` | src/m365/spo/commands/app/app-remove.ts:40 | The scope the command acts on holds no upper-case letter. Whenever the scope rule passes, it is `tenant` or `sitecollection`. |
| `SpoAppRemove.RemoveUrl` | src/m365/spo/commands/app/app-remove.ts:54 | The removal URL lies under the resolved catalog URL. A GUID id appears in it exactly as written, between `GetById('` and `')/remove`. |
| `SpoAppRemove.RemoveRequest` | src/m365/spo/commands/app/app-remove.ts:53-58 | The POST goes under the resolved catalog URL, with the `application/json;odata=nometadata` accept header and no response type. |
| `SpoAppRemove.AcceptedRequestShape` | src/m365/spo/commands/app/app-remove.ts:53-58 | For accepted options, the effective scope is `tenant` or `sitecollection`, and `sitecollection` only with a catalog URL. The removal URL is `<catalog>/_api/web/<scope>appcatalog/AvailableApps/GetById('<id>')/remove`, with the id exactly as given. |
| `SpoAppRemove.DefaultScopeIsTenant` | src/m365/spo/commands/app/app-remove.ts:40 | Without a scope, the effective scope is `tenant` and the request goes to `tenantappcatalog`. |
| `SpoAppRemove.RemoveUrlInjective` | src/m365/spo/commands/app/app-remove.ts:54 | Two removal URLs for the same catalog are equal only for the same effective scope and the same app id. |
| `SpoAppRemove.PromptMessage` | src/m365/spo/commands/app/app-remove.ts:73 | The confirmation question starts with `Are you sure you want to remove the app ` and then names the app's id. |
| `SpoAppRemove.RemoveApp` | src/m365/spo/commands/app/app-remove.ts:42-63 | The removal chain always starts by resolving the SharePoint URL and always ends in one outcome, `cb()` or a rejection. |
| `SpoAppRemove.RemoveAppOrder` | src/m365/spo/commands/app/app-remove.ts:43-60 | The chain stops at the first failed lookup. The catalog URL is looked up exactly once, with the resolved SharePoint URL, exactly when the first lookup succeeded. The POST comes only after both lookups and goes to the catalog URL the second lookup returned. |
| `SpoAppRemove.RemoveAppCounts` | src/m365/spo/commands/app/app-remove.ts:42-63 | The removal chain has exactly one outcome, as its last event, and no prompt. It posts once exactly when both lookups succeeded. The last event is `cb()` only when all three calls succeeded. Otherwise it is the first failed call's rejection, carrying that call's raw error. |
| `SpoAppRemove.RemoveAppLast` | src/m365/spo/commands/app/app-remove.ts:43-62 | The removal chain ends in `cb()` only when the SharePoint URL lookup, the catalog lookup and the POST all succeeded. Otherwise it ends with the rejection of the first call that failed, carrying that call's raw error unchanged. |
| `SpoAppRemove.CommandAction` | src/m365/spo/commands/app/app-remove.ts:39-83 | The first event is the prompt naming the app when `confirm` is not set, and the SharePoint URL lookup when it is. Every trace has at least two events. |
| `SpoAppRemove.CommandActionOutcome` | src/m365/spo/commands/app/app-remove.ts:39-83 | Every invocation has exactly one outcome, and it is last. The user is asked exactly when `confirm` is not set, and then as the first event. At most one removal request is sent. One is sent if and only if removal was confirmed (by flag or answer) and both lookups succeeded. A declined prompt ends in `cb()`. Otherwise the invocation ends the way the removal chain ends. It ends in `cb()` if and only if the user declined or all three calls succeeded. |
| `SpoAppRemove.DeclineEndsQuietly` | src/m365/spo/commands/app/app-remove.ts:74-77 | Without `confirm`, a "no" answer gives the trace prompt then `cb()`, with no lookup and no request. |
| `SpoAppRemove.ConfirmSkipsPrompt` | src/m365/spo/commands/app/app-remove.ts:65-82 | With `confirm` the invocation does exactly what a "yes" answer does, minus the prompt. |
| `SpoAppRemove.ConfirmedRemovalPostsTheApp` | src/m365/spo/commands/app/app-remove.ts:48-62 | When removal is confirmed and every call succeeds, the last two events are the POST of this app's removal request and `cb()`. |
| `SpoAppRemove.GetTelemetryProperties` | src/m365/spo/commands/app/app-remove.ts:31-37 | The inherited properties are kept. `appCatalogUrl` and `confirm` become `"true"`/`"false"` by truthiness. `scope` is the scope as given, or `tenant`. No other key changes. |
| `SpoAppRemove.TelemetryAgreesWithAction` | src/m365/spo/commands/app/app-remove.ts:33-35 | The telemetry records only whether a catalog URL was given, never the URL. Its scope, lower-cased, is the scope the command acts on. |
| `SpoAppRemove.OwnOptions` | src/m365/spo/commands/app/app-remove.ts:86-100 | The command declares exactly four options, in order: `-i, --id <id>`, `-u, --appCatalogUrl [appCatalogUrl]`, `-s, --scope [scope]` and `--confirm`. Only `--scope` suggests values, and every suggested value is a known scope. |
| `SpoAppRemove.AllOptions` | src/m365/spo/commands/app/app-remove.ts:85-104 | The command's four options come first, followed by the inherited options unchanged and in order. |
| `AadOAuth2GrantList.Validate` | src/m365/aad/commands/oauth2grant/oauth2grant-list.ts:65-71 | Accepts (`true`) if and only if `spObjectId` is a GUID. Otherwise returns exactly `<spObjectId> is not a valid GUID`. |
| `AadOAuth2GrantList.DefaultProperties` | src/m365/aad/commands/oauth2grant/oauth2grant-list.ts:26-28 | The default columns are `objectId`, `resourceId`, `scope`, in that order. |
| `AadOAuth2GrantList.ListUrl` | src/m365/aad/commands/oauth2grant/oauth2grant-list.ts:36 | The query lies under the Graph resource. A GUID object id appears in it exactly as written, inside the quoted `$filter` value. |
| `AadOAuth2GrantList.ListRequest` | src/m365/aad/commands/oauth2grant/oauth2grant-list.ts:35-41 | The GET goes under the Graph resource, with the `application/json;odata.metadata=none` accept header and the `json` response type. |
| `AadOAuth2GrantList.OnlyIdentifierEncoded` | src/m365/aad/commands/oauth2grant/oauth2grant-list.ts:36 | The URL is the resource plus the literal filter text, the encoded id and a closing quote. No space or `$` appears in the encoded id. |
| `AadOAuth2GrantList.AcceptedIdAppearsVerbatim` | src/m365/aad/commands/oauth2grant/oauth2grant-list.ts:36 | For an accepted id, the filter compares `clientId` with the id exactly as given. The id holds no quote. |
| `AadOAuth2GrantList.ListUrlInjective` | src/m365/aad/commands/oauth2grant/oauth2grant-list.ts:36 | Different object ids give different queries. |
| `AadOAuth2GrantList.CommandAction` | src/m365/aad/commands/oauth2grant/oauth2grant-list.ts:30-52 | Every invocation ends in one outcome. That outcome is `cb()` if and only if the GET succeeded. |
| `AadOAuth2GrantList.CommandActionOutcome` | src/m365/aad/commands/oauth2grant/oauth2grant-list.ts:30-52 | There is exactly one GET and exactly one outcome, and the outcome is last. The GET sends this object id's grants query with the no-metadata JSON headers. The outcome is `cb()` if and only if the GET succeeded. A failed GET ends in a rejection that carries the raw reply unchanged. The grants are logged once, as received, if and only if the response has a non-empty `value`. |
| `AadOAuth2GrantList.AllOptions` | src/m365/aad/commands/oauth2grant/oauth2grant-list.ts:54-63 | `-i, --spObjectId <spObjectId>` comes first, followed by the inherited options unchanged and in order. |
| `Uri.Encode` | src/m365/spo/commands/app/app-remove.ts:54 | encodeURIComponent: the result is never shorter than the input and at most twelve times as long. The per-character facts are proved in `Uri.EncodeIdentity`, `Uri.EncodeAlphabet` and `Uri.DecodeEncode`. |
| `Uri.DecodeEncode` | src/m365/spo/commands/app/app-remove.ts:54 | Decoding the encodeURIComponent form of any string gives the string back. |
| `Uri.EncodeInjective` | src/m365/spo/commands/app/app-remove.ts:54 | Two different strings never encode alike. |
| `Uri.EncodeIdentity` | src/m365/spo/commands/app/app-remove.ts:54 | Encoding leaves a string unchanged if and only if all its characters are unreserved. Encoding never shortens a string. |
| `Uri.EncodeAlphabet` | src/m365/aad/commands/oauth2grant/oauth2grant-list.ts:36 | Every character of an encoded string is unreserved, `%`, or an upper-case hexadecimal digit. |
| `Uri.EncodeHasNoDelimiters` | src/m365/aad/commands/oauth2grant/oauth2grant-list.ts:36 | An encoded string holds no space, `/`, `?`, `&`, `#`, `=` or `$`. |
| `Guid.IsValidGuid` | src/m365/spo/commands/app/app-remove.ts:119 | The GUID rule: 8-4-4-4-12 hexadecimal digits joined by hyphens. Every character of a GUID is one that encodeURIComponent leaves as it is. |
| `Guid.GuidEncodesToItself` | src/m365/spo/commands/app/app-remove.ts:119-121 | A string that passes the GUID check is its own encoding and holds no quote. |
| `Text.Lower` | src/m365/spo/commands/app/app-remove.ts:109 | No upper-case letter remains in the lower-cased scope. Every other character is kept, and each upper-case letter becomes the lower-case letter 32 code points above it. |
| `Text.LowerIdempotent` | src/m365/spo/commands/app/app-remove.ts:40 | Lower-casing an already lower-cased scope changes nothing. |
| `Text.LowerFixedPoints` | src/m365/spo/commands/app/app-remove.ts:109 | A string is its own lower-case form if and only if it has no upper-case letter. |

## Left out

- The HTTP calls (`request.post`, `request.get`), `spo.getSpoUrl` and `getAppCatalogSiteUrl` are not modelled. Their results are inputs to the command-body functions: a value or a raw rejection.
- The asynchronous promise and callback chain is not modelled. Only the order of events it produces is.
- The interactive prompt (`Cli.prompt`) is an input: the user's boolean answer. Of the prompt's own fields, only the message is kept.
- `handleRejectedODataPromise` and `handleRejectedODataJsonPromise` are defined in base classes that are not part of this model. A rejection ends the trace as `Rejected(raw)`.
- `validation.isValidSharePointUrl` is not part of this model. It is a function parameter of `SpoAppRemove.Validate`, answering `true` or a message.
- `validation.isValidGuid` is not part of this model. `Guid.IsValidGuid` stands for it with the 8-4-4-4-12 hexadecimal-digit rule, in either case.
- Uri.Encode: strings are sequences of Unicode scalar values. A lone UTF-16 surrogate, on which JavaScript's `encodeURIComponent` throws, cannot be expressed.
- Uri.Decode: it is only the partner of the encoder. It accepts some inputs, such as overlong UTF-8 forms, that `decodeURIComponent` rejects.
- Text.Lower: lower-cases ASCII letters only. JavaScript's `toLowerCase` also maps non-ASCII letters, which this model leaves unchanged.
- Telemetry emission and logger output formatting are not modelled. `logToStderr` lines appear as events carrying their text.
- The inherited options (`super.options()`) and inherited telemetry properties (`super.getTelemetryProperties`) are parameters.
- The Graph resource URL (`this.resource`) is a parameter.
- The command names (`commands.APP_REMOVE`, `commands.OAUTH2GRANT_LIST`) come from command tables that are not part of this model.
- The framework that calls `validate` before `commandAction` is not part of this model. The link between the two is stated by `SpoAppRemove.AcceptedRequestShape` and `AadOAuth2GrantList.AcceptedIdAppearsVerbatim`.
- src/m365/tenant/commands.ts holds only command-name constants, so it has no behaviour to model.
- src/m365/spo/commands/file/file-checkout.spec.ts tests `file-checkout.ts`, which is not part of this model.
