# Permissions-policy manager, modelled in Dafny

This project models the core of a browser developer-tools extension. The
extension lets a user switch individual permissions-policy features on or
off for the page being inspected. It then rewrites the page's
`Feature-Policy` and `Permissions-Policy` response headers so that the
browser enforces the user's choices.

The core is the `PermissionsPolicyManager` in
`src/permissions-policy-manager.js`. It has these parts:

- **Token translation.** `allowlistItemFP2PP` turns one allow-list token
  from Feature-Policy vocabulary into Permissions-Policy vocabulary
  (`PolicyManager.TranslateToken`, `TranslateAll`).
- **Header merging.** `overrideFeaturePolicyHeader` and
  `overridePermissionsPolicyHeader` set every customised feature in a
  parsed header. An existing key keeps its slot and a new key is appended,
  as `Map.prototype.set` does (`OrderedMap.Set`, `OrderedMap.ApplyAll`).
- **The response-header rewriter.** `overrideResponseHeaders` does the
  following:
  - classifies headers by a case-insensitive name match;
  - joins same-family values with `;` or `,`;
  - parses, merges and serialises the joined value;
  - emits the Feature-Policy entry, then the Permissions-Policy entry (each
    only when non-empty), then every other header in its original order.
- **The manager's state.** A snapshot of the policies the page set, plus
  the user's customisations (`PolicyManager.State`).
  - `togglePolicyOnPage` and `restoreOriginalPoliciesSetByPage` change it.
  - `buildCustomizedPolicyList` only reads it: it returns a fresh list and
    leaves the state as it was.

The two header codecs (`FeaturePolicy` and `PermissionsPolicy`) are written
to agree with every vector in `spec/permissions-policy-headers.spec.js`.
They have these properties:

- The legacy header splits on `;`, then on white space.
- The structured header is a reduced form of the Dictionary syntax of
  section 3.2 of RFC 8941. Members are separated by `,` and split at their
  first `=`. A value is either a parenthesised inner list or a one-token
  shorthand.
- Serialisation always writes the parenthesised form.
- Both codecs are proved to round-trip every well-formed header.

Files:

| file | contents |
|---|---|
| `text.dfy` | `Text`: JavaScript-style `split` and `join`, trimming, and an ASCII case-insensitive substring test |
| `ordered_map.dfy` | `OrderedMap`: insertion-ordered maps with `Set` semantics and the lemmas about folding updates over them |
| `policy_header.dfy` | `PolicyHeader`: the parsed-header type and the segment parsing and rendering shared by both codecs |
| `feature_policy.dfy` | `FeaturePolicy`: the legacy header codec |
| `permissions_policy.dfy` | `PermissionsPolicy`: the structured header codec |
| `policy_manager.dfy` | `PolicyManager`: translation, merging, the header rewriter and the state operations |
| `header_vectors.dfy` | `HeaderVectors`: the codec test vectors, proved |
| `manager_scenarios.dfy` | `ManagerScenarios`: the rewriter and toggle scenarios of the manager's tests, proved |

## Model

| member | source | states |
|---|---|---|
| PolicyManager.TranslateToken | src/permissions-policy-manager.js:12-23 | `*` is the only token that maps to `*`, `'self'` the only one that maps to `self`, and `'none'` the only one that maps to the empty token; every other token comes out wrapped in double quotes, otherwise unchanged |
| PolicyManager.TranslateRoundTrip | src/permissions-policy-manager.js:12-23 | translation loses nothing: the original token can be recovered from every translated one |
| PolicyManager.TranslateInjective | src/permissions-policy-manager.js:12-23 | two different tokens never translate to the same token |
| PolicyManager.TranslateAll | src/permissions-policy-manager.js:101 | `allowList.map(allowlistItemFP2PP)`: same length, with each token translated in place |
| PolicyManager.TranslateAllInjective | src/permissions-policy-manager.js:101 | different allow-lists translate to different allow-lists, so no customisation is confused with another in the structured header |
| PolicyManager.OverrideFeaturePolicyHeader | src/permissions-policy-manager.js:86-91 | the merged header has exactly the received and the customised feature names; each customised feature has the user's allow-list and every other feature keeps its received value; received features keep their slots and new ones are appended in customisation order; distinct names stay distinct |
| PolicyManager.OverridePermissionsPolicyHeader | src/permissions-policy-manager.js:99-104 | as for Feature-Policy, except that each customised feature gets its allow-list translated token by token |
| PolicyManager.OverrideFeaturePolicyHeaderIdempotent | src/permissions-policy-manager.js:86-91 | applying the same customisations a second time changes nothing |
| PolicyManager.OverridePermissionsPolicyHeaderIdempotent | src/permissions-policy-manager.js:99-104 | applying the same customisations a second time changes nothing |
| Text.ContainsIgnoreCaseMeaning | src/permissions-policy-manager.js:117-123 | the header-name test holds exactly when the pattern occurs at some position of the name, with ASCII letters compared case-insensitively |
| PolicyManager.Filter | src/permissions-policy-manager.js:155-156 | a header is kept exactly when it is in the input and passes the test; the result is never longer than the input |
| PolicyManager.FilterAppend | src/permissions-policy-manager.js:155-156 | filtering distributes over concatenation, so kept headers stay in their original relative order |
| PolicyManager.OverrideResponseHeaders | src/permissions-policy-manager.js:113-159 | the output ends with every unrelated header in its original order, preceded by exactly one entry for each non-empty merged header and nothing else; a `Feature-Policy` entry carrying the serialised merge comes first exactly when the merged legacy header is non-empty; a `Permissions-Policy` entry comes just before the unrelated headers exactly when the merged structured header is non-empty; no emitted policy entry has an empty value |
| PolicyManager.MergedEmpty | src/permissions-policy-manager.js:135-154 | a merged header is empty, and so is not emitted, exactly when nothing is customised and the received header parses to nothing |
| PolicyManager.PassThrough | src/permissions-policy-manager.js:145-157 | with no customisations and no policy header in the response, the rewritten list equals the input list |
| PolicyManager.FeaturePolicyOverrideReadsBack | src/permissions-policy-manager.js:135-138 | the emitted Feature-Policy value parses back to the merged map, and every customised feature reads back with the user's allow-list |
| PolicyManager.PermissionsPolicyOverrideReadsBack | src/permissions-policy-manager.js:140-143 | when the received structured header is well formed, the emitted Permissions-Policy value parses back to the merged map, and every customised feature reads back with its translated allow-list |
| PolicyManager.OverrideKeepsFeaturePolicyWellFormed | src/permissions-policy-manager.js:86-91 | merging customisations that have no white space or `;` in them into a well-formed legacy header leaves it well formed |
| PolicyManager.OverrideKeepsPermissionsPolicyWellFormed | src/permissions-policy-manager.js:99-104 | merging customisations that the structured header can express into a well-formed structured header leaves it well formed |
| PolicyManager.TogglePolicyOnPage | src/permissions-policy-manager.js:204-217 | fails exactly when the feature is neither customised nor reported by the page; otherwise the snapshot is unchanged, the feature's allowed flag becomes the negation of its customised flag (or of the page's flag when not customised), its allow-list becomes `["*"]` or `["'none'"]` to match, an existing customisation keeps its slot and a new one is appended, and no other customisation changes |
| PolicyManager.ToggleTwice | src/permissions-policy-manager.js:204-217 | toggling the same feature twice succeeds and restores the allowed flag the first toggle started from |
| PolicyManager.BuildCustomizedPolicyList | src/permissions-policy-manager.js:167-175 | the list has the page's features in the page's order; each one carries its customised policy when it has one and the page's policy otherwise |
| PolicyManager.BuildLookup | src/permissions-policy-manager.js:167-175 | looking a feature up in the list gives its customisation, or the page's policy, or nothing for a feature the page did not report, even if it was customised |
| PolicyManager.RestoreOriginalPoliciesSetByPage | src/permissions-policy-manager.js:161-165 | both the customisations and the page snapshot are emptied |
| PolicyManager.RestoreForgets | src/permissions-policy-manager.js:161-165 | after a restore every toggle fails, the built list is empty, and the rewritten Feature-Policy is just the received one re-parsed |
| OrderedMap.Set | src/permissions-policy-manager.js:88 | `Map.prototype.set`: the key maps to the new value; an existing key keeps its slot and every other entry is unchanged; a new key is appended |
| OrderedMap.ApplyAllMeaning | src/permissions-policy-manager.js:87-89 | setting a sequence of updates in order gives the union of the keys; each updated key has its last update's value and every other key keeps its value; existing keys keep their slots |
| OrderedMap.ApplyAllKeyOrder | src/permissions-policy-manager.js:87-89 | for distinct update keys, the resulting key order is the original keys followed by the new keys in update order |
| FeaturePolicy.Parse | spec/permissions-policy-headers.spec.js:5-12 | parsing always gives a well-formed header: distinct names, and names and tokens with no white space or `;` |
| FeaturePolicy.RoundTrip | spec/permissions-policy-headers.spec.js:5-24 | serialising then parsing gives back every well-formed legacy header, with the same names, order and allow-lists |
| FeaturePolicy.ParseSerializeParse | spec/permissions-policy-headers.spec.js:5-24 | re-parsing a serialised parse changes nothing: serialising only normalises spacing |
| FeaturePolicy.ParseEmpty | spec/permissions-policy-headers.spec.js:14-26 | the empty value parses to the empty header, and the empty header serialises to the empty value |
| FeaturePolicy.ParseJoined | src/permissions-policy-manager.js:125-128 | two legacy values joined with `;` parse as the first with the second's segments set on top |
| PermissionsPolicy.Parse | spec/permissions-policy-headers.spec.js:32-39 | parsing always gives distinct feature names |
| PermissionsPolicy.RoundTrip | spec/permissions-policy-headers.spec.js:32-51 | serialising then parsing gives back every well-formed structured header, with the same names, order and allow-lists |
| PermissionsPolicy.ParseEmpty | spec/permissions-policy-headers.spec.js:41-53 | the empty value parses to the empty header, and the empty header serialises to the empty value |
| PermissionsPolicy.ParseJoined | src/permissions-policy-manager.js:130-133 | two structured values joined with `,` parse as the first with the second's members set on top |
| PermissionsPolicy.ShorthandNormalised | spec/permissions-policy-headers.spec.js:32-51 | a shorthand member `name=tok` reads as the one-token allow-list and is written back as `name=(tok)` |
| HeaderVectors.FeaturePolicyParseVector | spec/permissions-policy-headers.spec.js:5-12 | the test's legacy header value, which has irregular spacing, parses to the four-feature sample map |
| HeaderVectors.FeaturePolicySerializeVector | spec/permissions-policy-headers.spec.js:18-24 | the four-feature sample map serialises to the test's expected legacy string |
| HeaderVectors.FeaturePolicyNormalisesSpacing | spec/permissions-policy-headers.spec.js:5-24 | parsing then serialising the test's irregular value gives the normalised legacy string |
| HeaderVectors.PermissionsPolicyParseVector | spec/permissions-policy-headers.spec.js:32-39 | the test's structured value, which mixes the shorthand and the list forms, parses to the four-feature sample map |
| HeaderVectors.PermissionsPolicySerializeVector | spec/permissions-policy-headers.spec.js:45-51 | the four-feature sample map serialises to the test's expected structured string |
| HeaderVectors.PermissionsPolicyNormalisesShorthand | spec/permissions-policy-headers.spec.js:32-51 | parsing then serialising the test's mixed value gives the all-parenthesised string |
| ManagerScenarios.NoOverrideScenario | spec/permissions-policy-manager.spec.js:13-25 | with nothing customised, a response with only `other-header` is returned unchanged |
| ManagerScenarios.OverrideFeaturePolicyScenario | spec/permissions-policy-manager.spec.js:27-42 | with FeatureA customised to `'none'`, a `Feature-Policy: FeatureA *` response becomes `Feature-Policy: FeatureA 'none'` followed by `Permissions-Policy: FeatureA=()` |
| ManagerScenarios.OverridePermissionsPolicyScenario | spec/permissions-policy-manager.spec.js:44-59 | with the same customisation, a `Permissions-Policy: FeatureA=*` response becomes the same two entries |
| ManagerScenarios.KeepOtherHeadersScenario | spec/permissions-policy-manager.spec.js:61-85 | with empty policy headers next to `other-header`, the result is the two override entries followed by `other-header` unchanged |
| ManagerScenarios.PermissionsPolicyNameClassified | src/permissions-policy-manager.js:117-123 | a header named `Permissions-Policy` is in the structured family and not in the legacy family |
| ManagerScenarios.ToggleScenario | src/permissions-policy-manager.js:204-217 | toggling a feature the page allows for `*` records it as disallowed with `'none'`, and the built list then shows exactly that customisation |

## Left out

- `getPermissionsPolicyAllowListOnPage` and `getPermissionsPolicies`: both evaluate code inside the inspected page and run asynchronous callbacks, so they are outside a pure model. The model starts from a snapshot `State.original` that already holds their result.
- `sortObjectByKey`: it only orders the snapshot for display. The model takes the snapshot in whatever order it is given.
- The getter and setter for the list of features the browser supports, and its `console.warn`: these are configuration and logging with no effect on the modelled operations.
- The `UI.updateDOMLists`, `UI.clearError` and `UI.displayError` calls: they are user-interface side effects.
- `panel.js`: it is the extension's panel user interface and holds no policy logic of its own.
- `background.js`: it wires the extension into network interception. It also holds its own older header rewriter, `overridePolicies` (background.js:44-86), which is what its `webRequest` hook calls (background.js:111). That rewriter always emits both policy headers, and it refers to an undefined `incomingResponseHeaders` (background.js:82). It is a stale duplicate of the manager's `overrideResponseHeaders`, and it is deliberately not modelled; the model follows the manager's version.
- The module-level variables are modelled as one `State` value passed in and returned. Sharing between manager instances is not modelled.
- Because of that sharing, the manager's first test (spec/permissions-policy-manager.spec.js:13-25) does not run with nothing customised, as its title says. The `describe` body (lines 8-11) writes `FeatureA` into the shared customisations before any test runs, and a fresh `PermissionsPolicyManager` sees them (src/permissions-policy-manager.js:47-49, 72-74). Read as written, that test would get two policy entries back. `ManagerScenarios.NoOverrideScenario` proves what the test intends: with an empty customisation list, the response is returned unchanged.
- `src/permissions-policy-header.js` is not part of this model. The two codecs here are reconstructed to agree with its test vectors and with the header grammar described above. Where the real codec differs on inputs the tests do not cover, the model may differ too.
- White space in both codecs is space and tab only. Structured-header validation and unescaping (RFC 8941 sections 3.3 and 4.2) are not done; tokens are kept verbatim.
- `Object.entries` lists integer-like keys before the others. The model keeps plain insertion order for every key.
- Names inherited from `Object.prototype` (such as `constructor`) look customised to the source's truthiness tests. The model looks up only keys that were actually stored.
- The `JSON.parse(JSON.stringify(...))` deep copy in `buildCustomizedPolicyList` is not needed: model values are immutable.
- `RegExp(name, 'i')` header matching is modelled as an ASCII case-insensitive literal substring test. The two header names contain no regular-expression metacharacters other than `-`, which is literal outside a character class. Non-ASCII case folding is not modelled.
- PolicyManager.TogglePolicyOnPage: for a feature in neither map the source throws a `TypeError` (it reads `.allowed` of `undefined`). The model returns `UnknownFeature` instead.
- PolicyManager.PermissionsPolicyOverrideReadsBack: requires a well-formed received header and non-empty customised allow-lists. An empty allow-list serialises to `()`, which reads back as the one empty token `[""]`, not as `[]`.
- PolicyManager.OverrideFeaturePolicyHeader: the per-key value claim is stated for customisations with distinct names only. A JavaScript object cannot hold a name twice, so this loses nothing.
- The manager's test at spec/permissions-policy-manager.spec.js:61-85 accepts the three headers in any order. The model proves the one exact order the source produces.
- Header classification is a case-insensitive substring test, as in the source. A design that compares whole names exactly would treat names such as `X-Feature-Policy-Report` differently. The model follows the code.
