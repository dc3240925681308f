# CredVault authentication module, modelled in Dafny

This project models `client/lib/auth.ts`, the client-side identity and
credential store of the CredVault front-end. The module has three parts:

- two advisory validators. `isValidEmail` is a single regular expression.
  `isValidWallet` is a three-tier cascade: hexadecimal `0x…` addresses, then
  `name.apt` named addresses, then a length fallback;
- `getRoleDashboardPath`, which maps a role string to a route;
- a store over the browser's key-value storage with two slots. One slot
  holds the signed-in user's profile. The other holds an append-only ledger
  of issued credentials.

The browser storage is an explicit `map<string, Stored>`. `Stored` is the
value `JSON.parse` makes of a slot's text: a profile, an array of
credentials, `null`, some other JSON value, or text that does not parse.
Every operation is a pure function from storage to storage plus a result.
Generated ids and timestamps are parameters.

Modules, one per concern:

| file | module | contents |
|---|---|---|
| wrappers.dfy | `Wrappers` | `Option`, `Result` |
| js_text.dfy | `JsText` | the ECMAScript whitespace set, `trim`, `startsWith`, `includes`, UTF-16 `length` |
| validation.dfy | `Validation` | `isValidEmail`, `isValidWallet` and their properties |
| roles.dfy | `Roles` | roles and `getRoleDashboardPath` |
| records.dfy | `Records` | `UserProfile`, the registration records, `IssuedCredential` |
| storage.dfy | `Storage` | the two slot keys, `Stored`, `Store` |
| session.dfy | `Session` | save / read / logout / isAuthenticated and the three registrations |
| ledger.dfy | `Ledger` | issue, read-all and the two per-address projections |
| store_laws.dfy | `StoreLaws` | how the two slots interact; runs of issues |

Notes on behaviour the model follows from the code:

- The wallet tiers are exclusive, not alternatives. A trimmed input that
  starts with `0x` is judged only by the hexadecimal rule. One that contains
  `.apt` is judged only by the named-address rule. So `0xZZZZZZ` and
  `abc.apt.xyz` are rejected although they are long enough for the
  fallback, and `0xab.apt` is rejected although it is a well-formed name
  followed by `.apt`.
- An upper-case `0X` prefix escapes the hexadecimal tier. The input is then
  judged by the later tiers: `0X1234` by the length fallback, and `0Xab.apt`
  by the named-address rule.
- Named addresses have no length cap. The fallback's cap of 100 does not
  apply to them.
- The code does not make credential ids unique. Ids come from the clock and
  `Math.random`. The model proves distinct ids only on the assumption that
  each generated id is new to the ledger.
- `getCurrentUser` returns any non-`null` parsed value unchecked. A number,
  `false` or an array in the profile slot therefore counts as signed in.
- `getIssuedCredentials` returns a non-array parsed value unchecked. The
  later `filter` or `push` then throws a `TypeError`. The model returns
  `Err(TypeError)` and, for an issue, writes nothing.

## Model

| member | source | states |
|---|---|---|
| JsText.Trim | client/lib/auth.ts:190 | the trimmed string is a contiguous slice of the input, only whitespace was removed around it, and it neither starts nor ends with whitespace |
| JsText.TrimUnique | client/lib/auth.ts:190 | any slice obtained by stripping only whitespace that has no whitespace at either end is the trimmed string |
| JsText.TrimIdempotent | client/lib/auth.ts:190 | trimming a trimmed string changes nothing |
| JsText.TrimEmptyIffAllSpace | client/lib/auth.ts:190 | an input trims to the empty string exactly when it is all whitespace |
| JsText.Utf16Length | client/lib/auth.ts:203 | the JavaScript length is the number of characters plus the number of characters that need a surrogate pair; so it lies between the number of characters and twice that, and equals it exactly when no character needs a surrogate pair |
| JsText.AstralPositionsOfSnoc | client/lib/auth.ts:203 | the characters that need a surrogate pair are those of the string without its last character, plus the last one if it needs one |
| Validation.IsValidEmail | client/lib/auth.ts:177-180 | definition (the regular-expression test); it holds exactly for the e-mail shape: no whitespace, exactly one `@`, a non-empty local part, and a `.` inside the domain that is neither its first nor its last character |
| Validation.EmailRegexIffShape | client/lib/auth.ts:177-179 | the e-mail expression accepts exactly the inputs with no whitespace, exactly one `@`, a non-empty local part, and a `.` inside the domain that is neither its first nor its last character |
| Validation.EmailExample | client/lib/auth.ts:177-179 | `a@b.com` is accepted |
| Validation.LeadingDotEmailExample | client/lib/auth.ts:177-179 | `a@.b.c` is accepted |
| Validation.NoAtEmailExample | client/lib/auth.ts:177-179 | `not-an-email` is rejected |
| Validation.TwoAtEmailExample | client/lib/auth.ts:177-179 | `a@b@c.com` is rejected |
| Validation.IsValidWallet | client/lib/auth.ts:185-204 | definition (the tier cascade on the trimmed input); an empty or whitespace-only input is rejected, and every accepted input trims to at least three characters |
| Validation.WalletTrimInvariant | client/lib/auth.ts:186-190 | the verdict on an input equals the verdict on its trimmed form |
| Validation.UnpaddedWallet | client/lib/auth.ts:185-203 | an input with no whitespace at either end is judged by the tier cascade as it stands |
| Validation.HexTier | client/lib/auth.ts:192-195 | after a `0x` prefix the input is accepted exactly when the rest is 1 to 64 hexadecimal digits; the fallback is never consulted |
| Validation.NamedTier | client/lib/auth.ts:197-200 | without the `0x` prefix but containing `.apt`, the input is accepted exactly when it is one non-empty `[A-Za-z0-9_-]` run followed by `.apt` at the end |
| Validation.FallbackTier | client/lib/auth.ts:202-203 | otherwise the input is accepted exactly when its trimmed length is 6 to 100 UTF-16 units |
| Validation.NamedAddressHasOneDot | client/lib/auth.ts:199 | an accepted named address has exactly one `.`, the one of its `.apt` suffix |
| Validation.NamedAddressesAreUnbounded | client/lib/auth.ts:197-203 | any non-empty name run not starting with `0x`, followed by `.apt`, is accepted whatever its length |
| Validation.HexPrefixShadowsNamedAddress | client/lib/auth.ts:193-200 | an input starting with `0x` that contains a `.` is rejected |
| Validation.ShortestTrimmedWallet | client/lib/auth.ts:192-203 | every input the tier cascade accepts has at least three characters: `0x1` is the shortest |
| Validation.HexExample | client/lib/auth.ts:193-195 | `0x1aF9` is accepted |
| Validation.NamedExample | client/lib/auth.ts:198-200 | `alice.apt` is accepted |
| Validation.FallbackExample | client/lib/auth.ts:203 | `abcdef` is accepted |
| Validation.NonHexExample | client/lib/auth.ts:193-195 | `0xZZZZ` is rejected |
| Validation.ShortExample | client/lib/auth.ts:203 | `ab` is rejected |
| Validation.BarePrefixExample | client/lib/auth.ts:193-195 | `0x` alone is rejected |
| Validation.TrailingAptExample | client/lib/auth.ts:198-200 | `abc.apt.xyz` is rejected |
| Validation.UpperCasePrefixExample | client/lib/auth.ts:193-203 | `0X1234` is accepted by the length fallback |
| Roles.DashboardPath | client/lib/auth.ts:154-165 | definition (the switch); each role's name maps to `/` followed by that name, and the result is `/` exactly for strings that name no role |
| Roles.DashboardPathsSeparateRoles | client/lib/auth.ts:154-165 | distinct roles map to distinct paths |
| Records.IssueRecord | client/lib/auth.ts:225-230 | the issued record carries the request's fields, the generated id and date, and status `issued` |
| Records.IssueRecordOfRequest | client/lib/auth.ts:209-230 | a record has status `issued` exactly when it is the issue of its own request, id and date |
| Session.GetCurrentUser | client/lib/auth.ts:74-82 | definition; a missing, unparsable or `null` slot reads as no user, a stored profile reads as that profile, and any other parsed value is returned as a non-profile |
| Session.IsAuthenticated | client/lib/auth.ts:147-149 | definition; the user counts as signed in exactly when the profile slot holds a parsed value other than `null`, a profile or not |
| Session.SaveUserProfile | client/lib/auth.ts:67-69 | afterwards the current user is the saved profile and the user is authenticated; every other slot is unchanged |
| Session.Logout | client/lib/auth.ts:87-89 | afterwards there is no current user and the user is not authenticated; every other slot is unchanged |
| Session.RegisterStudent | client/lib/auth.ts:94-106 | the profile copies name, e-mail and wallet, has role student and no organization or institution, and becomes the current user |
| Session.RegisterStaff | client/lib/auth.ts:111-124 | as for a student, with role staff and the organization set |
| Session.RegisterIssuer | client/lib/auth.ts:129-142 | as for a student, with role issuer and the institution set |
| Session.SaveOverwrites | client/lib/auth.ts:67-69 | a second save replaces the first wholesale |
| Session.LogoutUndoesSave | client/lib/auth.ts:67-89 | signing out after a save leaves the storage as signing out alone would |
| Session.LogoutIdempotent | client/lib/auth.ts:87-89 | signing out twice is signing out once |
| Ledger.GetIssuedCredentials | client/lib/auth.ts:242-250 | definition; a missing or unparsable slot reads as the empty array, an array reads as itself, and the result is no array exactly when the slot holds `null` or another non-array value |
| Ledger.LedgerSlotReads | client/lib/auth.ts:224-264 | a missing or unparsable ledger slot reads as empty, both projections are empty and an issue starts a one-record ledger; a `null` or other non-array ledger makes the read return no array, both projections throw and an issue fail |
| Ledger.SaveIssuedCredential | client/lib/auth.ts:224-237 | the issue succeeds exactly when the ledger reads as an array; then the ledger becomes the old ledger plus the new record, the record is returned, and every other slot is unchanged |
| Ledger.Select | client/lib/auth.ts:256 | the filter result is the order-preserving subsequence of the ledger whose chosen address equals the argument |
| Ledger.SelectionUnique | client/lib/auth.ts:255-264 | there is only one such subsequence |
| Ledger.SelectAppend | client/lib/auth.ts:233-263 | filtering a ledger with one more record is filtering the old ledger, then keeping the new record if it matches |
| Ledger.GetCredentialsByIssuer | client/lib/auth.ts:255-257 | the result is the ledger's records with that issuer wallet, in ledger order, or a `TypeError` when the ledger is no array |
| Ledger.GetCredentialsForStudent | client/lib/auth.ts:262-264 | the result is the ledger's records with that student wallet, in ledger order, or a `TypeError` when the ledger is no array |
| StoreLaws.SessionWritesKeepLedger | client/lib/auth.ts:67-89 | saving a profile or signing out leaves the ledger as it reads |
| StoreLaws.IssueKeepsSession | client/lib/auth.ts:224-237 | issuing a credential leaves the current user unchanged |
| StoreLaws.IssueExtendsProjections | client/lib/auth.ts:224-264 | after an issue, each projection is the old projection plus the new record when its address matches |
| StoreLaws.FreshIdKeepsIdsDistinct | client/lib/auth.ts:227-234 | if the generated id is new to the ledger, the ledger's ids stay pairwise distinct |
| StoreLaws.IssueAll | client/lib/auth.ts:224-237 | a run of issues appends one record per call, in call order, and leaves the session and every other slot alone; it throws exactly when the ledger is no array |
| StoreLaws.IssueIntoEmpty | client/lib/auth.ts:224-250 | issuing N credentials into storage without a ledger leaves a storage whose ledger reads as exactly N records, in call order, each with status `issued`, and whose other slots are unchanged; their ids are distinct when the generated ids are |

## Left out

- `client/App.tsx` and the pages `Index`, `StudentDashboard` and `IssuerDashboard` are presentation and routing only; none of these three pages imports this module. The other routed pages (`VerificationPage`, `NotFound`) are not part of this model.
- Real `localStorage` I/O and the JSON text itself are not modelled. Slots hold the already-parsed value. A storage failure (quota, access denied) is not modelled. The source catches one on the two reads, which then return `null` and `[]` as for unparsable text; on the writes of `saveUserProfile`, `logout` and `saveIssuedCredential` it is not caught.
- An array in either slot is assumed to hold credential records (`CredentialsJson`). Arrays of other values, and objects that are only partly profiles, have no representation. Every other value that is not an array is `OtherJson`.
- `generateUserId`, the credential-id expression and `new Date().toISOString()` are parameters. They read the clock and `Math.random`.
- The `typeof address !== 'string'` guard is not modelled. It is a dynamic-typing check that every `string` passes.
- `REGISTERED_USERS_KEY`, `StoredUser` and the three sign-in interfaces are not modelled. They are declared but nothing uses them.
- The `console.error` logging on a parse failure is not modelled.
- Extra properties carried at run time by the argument of `saveIssuedCredential` are not modelled. The object spread would copy them into the record.
- The cross-tab lost update on the ledger's read-modify-write is not modelled. The model is sequential.
- Strings are sequences of Unicode scalar values. JavaScript strings may hold unpaired surrogates, which have no counterpart here.
- The whitespace set is the ECMAScript one with the Unicode space separators as of current Unicode versions. Older engines that counted U+180E are not modelled.
