# AuditWiz provenance core in Dafny

AuditWiz lets several parties collaborate on regulated research records. Every change must be
attributable and reconstructable. This project models the provenance logic of its code in
Dafny and proves what that code guarantees. It covers:

- the study-scoped permission gate;
- content and signature hashing;
- the append-only audit ledger, its reads, the system-action endpoint and the CSV/JSON export;
- the record version chain: amending, the backward history walk, and the latest-version fold;
- signing, and the status buttons;
- study creation;
- the blockchain-anchor normalisers and guards;
- the `.env.local` reader of the test-user script;
- the redirect decision of the request proxy.

The model has one module per source file, plus four shared modules:

- `Wrappers`: `Option` and `Result`.
- `Text`: JavaScript `trim`, `split`, `join` and `startsWith`.
- `Json`: `JSON.stringify` over JSON whose numbers are integers.
- `Store`: the studies, memberships, record versions and signatures tables, as the `Database`
  class.

The external systems are parameters:

- the database's generated ids, timestamps and failures are outcome values;
- SHA-256 and the UTF-8 encoder form a `Primitives` value of two functions;
- the network calls, the clock and the role-lookup procedure are functions or values passed in.

Code that changes state is written imperatively:

- The ledger is the `Audit.AuditLedger` class over `seq<AuditEvent>`.
- Amending, signing, creating a study and logging a system action are methods that update
  `Database` or `AuditLedger`.
- The history walk and the latest-version fold are loops with invariants.
- `loadEnv` is a loop plus a method of the `EnvLoader.ProcessEnv` class.

Everything else is functions and lemmas.

What the code does, as the model states it:

- The ledger does not check that `previousStateHash` continues the previous event of a target.
  The only promise about the ledger in the code, that it is append-only and immutable, is
  kept: a write appends at most one event and changes no earlier event.
- Signing and approving are two separate writes, and the result of the status update is not
  checked.
- An amendment is built from the row it was started on, not from the head of the chain.
- Record statuses include `amended`.
- The history page fetches only a record and its direct successors, so on well-formed data it
  shows the record alone.
- The export can be read back as RFC 4180 CSV, and `ExportRoundTrip` proves that it reads
  back exactly.

## Model

| member | source | states |
|---|---|---|
| Permissions.GetUserStudyRole | lib/supabase/permissions.ts:11-27 | the role is null exactly when the lookup errs or answers null or empty text; otherwise it is the answered text, unchecked |
| Permissions.HasStudyRoleMeaning | lib/supabase/permissions.ts:32-39 | `hasStudyRole` holds iff the resolved role is non-null and names one of the required roles |
| Permissions.DenyWithoutRole | lib/supabase/permissions.ts:22-24 | a failed or empty lookup, or text naming no role, fails all five capability checks |
| Permissions.CapabilityTable | lib/supabase/permissions.ts:44-89 | role by role: create is creator/admin, review is every role but creator, approve is approver/admin, audit is auditor/admin, manage is admin only |
| Permissions.ApproveAndAuditImplyReview | lib/supabase/permissions.ts:58-78 | whoever may approve or audit may also review |
| Permissions.AllowsMonotone | lib/supabase/permissions.ts:38 | adding required roles never turns an allow into a deny |
| Crypto.Hex | lib/crypto.ts:29-30 | the hex text has two lower-case hex characters per byte |
| Crypto.HexRoundTrip | lib/crypto.ts:30 | reading the hex text back gives the bytes, so the encoding loses nothing |
| Crypto.HexInjective | lib/crypto.ts:30 | distinct digests give distinct hex strings |
| Crypto.GenerateHash | lib/crypto.ts:23-31 | the hash is lower-case hex of the digest of the UTF-8 text |
| Crypto.GenerateHashShape | lib/crypto.ts:28-30 | with a 32-byte digest every hash has 64 lower-case hex characters |
| Crypto.HashOfObjectIsHashOfItsText | lib/crypto.ts:24 | an object is hashed as its JSON text; a string is hashed as itself |
| Crypto.GenerateHashInjective | lib/crypto.ts:23-31 | with a collision-free digest, equal hashes mean equal hashed texts |
| Crypto.SignaturePayloadText | lib/crypto.ts:44-51 | the signed text has record_id, record_version, signer_id, intent and timestamp, in that order, with no white space |
| Crypto.SignatureTextInjective | lib/crypto.ts:44-50 | the signed text determines all five fields |
| Crypto.VerifyRoundTrip | lib/crypto.ts:57-73 | a hash made from five fields verifies against them |
| Crypto.VerifyDetectsTampering | lib/crypto.ts:65-72 | with a collision-free digest, verification succeeds iff all five fields equal the signed ones |
| Types.RolesClosed | lib/types.ts:4 | there are exactly five roles, with distinct names that parse back |
| Types.RecordStatusesClosed | lib/types.ts:8 | there are six record statuses, `amended` among them, with distinct names that parse back |
| Types.IntentsClosed | lib/types.ts:10 | there are exactly four signature intents, with distinct names |
| Types.ActionTypesClosed | lib/types.ts:12-19 | there are seventeen audit action types, with distinct names |
| Types.SystemActorIsNilUuid | lib/types.ts:109 | the system actor is the nil UUID: 36 characters, with hyphens at 8, 13, 18 and 23 and zeros elsewhere |
| Audit.SystemMetadata | lib/supabase/audit.ts:62-65 | the caller's keys plus `is_system_action`, which is true whatever the caller gave; other keys are unchanged |
| Audit.AuditLedger.CreateAuditEvent | lib/supabase/audit.ts:11-39 | success appends exactly one event carrying the eight arguments (metadata defaults to empty) and answers its id; failure gives "Failed to create audit event: " plus the message and leaves the ledger unchanged |
| Audit.AuditLedger.CreateSystemAuditEvent | lib/supabase/audit.ts:45-67 | the same append, with the system actor as actor and the system flag in the metadata |
| Audit.SortNewestFirstCorrect | lib/supabase/audit.ts:84 | the ordering is newest first and is a permutation of its input |
| Audit.NewestFirstLimitedSelects | lib/supabase/audit.ts:84-85 | ordering then cutting at the limit keeps min(limit, n) source rows, newest first, and leaves out no row newer than one kept |
| Audit.TrailEvents | lib/supabase/audit.ts:82-83 | an event is selected iff it is in the ledger with the given target type and target id, and it is selected as many times as the ledger holds it |
| Audit.GetAuditTrail | lib/supabase/audit.ts:72-92 | a read error gives "Failed to fetch audit trail: " plus the message; otherwise the result is a newest-first selection of the target's events, at most the limit (default 100) |
| Audit.ScopedEvents | lib/supabase/audit.ts:110-112 | the study filter applies only to a non-empty study id; otherwise every event is kept; each kept event appears as many times as the ledger holds it |
| Audit.GetAllAuditEvents | lib/supabase/audit.ts:98-121 | a read error gives "Failed to fetch audit events: " plus the message; otherwise the result is a newest-first selection of the scoped events, at most the limit (default 200) |
| AuditExport.ExportLimit | app/api/audit/export/route.ts:20 | the limit is 5000 when missing or zero, and never above 10000 |
| AuditExport.Present | app/api/audit/export/route.ts:16-18 | an empty parameter counts as absent |
| AuditExport.QueryOf | app/api/audit/export/route.ts:15-22 | the read gets non-empty filters and a clamped limit |
| AuditExport.Get | app/api/audit/export/route.ts:5-56 | with no user, the answer is 401 and nothing is read; CSV comes iff the format is exactly `csv`, and that CSV reads back as the headers and the events' fields; otherwise the answer is the events as JSON |
| AuditExport.Cells | app/api/audit/export/route.ts:43-45 | every row has one cell per header |
| AuditExport.DoubleQuotes | app/api/audit/export/route.ts:41 | every quote is doubled: the length grows by the number of quotes |
| AuditExport.Escape | app/api/audit/export/route.ts:39-42 | the field is quoted, with length len + #quotes + 2 |
| AuditExport.EscapeNullIsEmpty | app/api/audit/export/route.ts:40 | null and the empty string give the same field `""` |
| AuditExport.EscapeRoundTrip | app/api/audit/export/route.ts:41 | stripping the outer quotes and collapsing `""` gives back the value |
| AuditExport.ExportRoundTrip | app/api/audit/export/route.ts:25-46 | the CSV reads back, under RFC 4180 with LF breaks, as the 12 headers and then one line per event with its 12 columns in header order |
| SystemActions.OrNull | app/api/system-actions/route.ts:43-44 | a falsy optional field becomes null; any other is kept |
| SystemActions.RequestMetadata | app/api/system-actions/route.ts:46-49 | the caller's keys, with `requested_by` overwritten by the user id |
| SystemActions.ErrorText | app/api/system-actions/route.ts:57-61 | the error message, or "Internal server error" when it is empty |
| SystemActions.PostSystemAction | app/api/system-actions/route.ts:10-63 | no user gives 401; a missing required field gives 400; a failed append gives 500; in those cases nothing is appended; success appends one system event with falsy optional fields nulled and answers its id |
| SystemActions.LoggedMetadata | app/api/system-actions/route.ts:46-49 | a logged event's metadata is the caller's keys plus `requested_by` (the user) and `is_system_action` (true) |
| SystemActions.ActionTypeUnchecked | app/api/system-actions/route.ts:31-36 | validation accepts an action type outside the seventeen names |
| Store.FindRecord | components/records/amend-record-button.tsx:48-56 | the row with the id, or none exactly when no row has that id |
| Store.SetStatus | components/records/sign-record-button.tsx:105-110 | every row with the id gets the status, and no other row or field changes |
| Store.SetStatusValid | components/records/sign-record-button.tsx:106-109 | a status update keeps ids unique, links resolving and versions descending |
| Store.Database.InsertSignature | components/records/sign-record-button.tsx:87-99 | a stored signature row is appended and no other table changes |
| Store.Database.UpdateStatus | components/records/sign-record-button.tsx:105-110 | the records become `SetStatus` of the old ones, no other table changes, and a well-formed version store stays well-formed |
| Store.Database.InsertStudy | app/studies/actions.ts:28-37 | a stored study row is appended and no other table changes |
| Store.Database.InsertMember | app/studies/actions.ts:43-48 | a stored membership row is appended and no other table changes |
| VersionHistory.ParentId | components/records/record-version-history.tsx:32 | a null or empty link ends the walk |
| VersionHistory.IndexById | components/records/record-version-history.tsx:24 | every fetched id is a key of the map, each key maps to a fetched row with that id, and that row is the last fetched row with that id |
| VersionHistory.WalkStep | components/records/record-version-history.tsx:29-33 | prepending the current row and moving to its fetched parent keeps the chain linked and ending at the record, and the parent has a smaller version |
| VersionHistory.VersionChain | components/records/record-version-history.tsx:24-33 | the chain ends at the first fetched row with the id and is empty iff none has it; each row is its successor's parent, versions increase, and the first row's parent is missing or not fetched |
| VersionHistory.RecordVersionHistory | components/records/record-version-history.tsx:13-33 | a failed or empty fetch gives the fallback, and only it; otherwise the result is the chain above |
| VersionHistory.FetchedLinksDescend | components/records/record-version-history.tsx:13-17 | rows fetched from a store whose links descend keep that property |
| VersionHistory.ParentNotFetched | components/records/record-version-history.tsx:16 | in a well-formed store a record's parent is never among its fetched rows |
| VersionHistory.ChainStopsAtRecord | components/records/record-version-history.tsx:29-33 | a chain longer than one means the record's parent was fetched |
| VersionHistory.HistoryIsRecordAlone | components/records/record-version-history.tsx:13-33 | on a well-formed store the history is at most the record itself |
| VersionHistory.TwoCycleNeverEnds | components/records/record-version-history.tsx:30-33 | two rows that name each other as parent keep the walk going for any number of steps |
| RecordsList.KeptReplaced | components/records/records-list.tsx:36-37 | a strictly higher version of the same number replaces the kept row |
| RecordsList.KeptPastNotHigher | components/records/records-list.tsx:36 | an equal or lower version leaves the kept row, so on ties the first row seen stays |
| RecordsList.LatestVersions | components/records/records-list.tsx:35-40 | one entry per record number in the input; each is an input row with that number's highest version, the earliest on ties |
| RecordsList.KeptIsUnique | components/records/records-list.tsx:36 | the row kept for a number is determined |
| RecordsList.ShowRecords | components/records/records-list.tsx:15-42 | an error shows its message, an empty result shows the empty state, and anything else shows the latest versions |
| Amend.FailureText | components/records/amend-record-button.tsx:90 | the error message, or "Failed to create amendment" when it is empty |
| Amend.AmendRecord | components/records/amend-record-button.tsx:33-93 | a blank reason, a failed or missing read, or a failed insert gives its error and writes nothing; success appends exactly the amendment row and answers its id; no other table or row changes, and the store stays well formed |
| Amend.AmendmentIsNextVersion | components/records/amend-record-button.tsx:61-77 | the new row is one version higher and links to the row read; it keeps the record number and content, is a draft, hashes its content, and stores the reason as typed |
| Amend.AmendmentKeepsValid | components/records/amend-record-button.tsx:66-80 | appending an amendment with a fresh id keeps ids unique, links resolving and versions descending |
| Amend.AmendTwiceForks | components/records/amend-record-button.tsx:48-78 | amending one row twice gives two rows with the same version and parent, and the store stays well formed |
| Sign.ReauthText | components/records/sign-record-button.tsx:63 | "Invalid login credentials" is shown as "Invalid password."; other messages pass unchanged |
| Sign.FailureText | components/records/sign-record-button.tsx:115 | the error message, or "Failed to create signature" when it is empty |
| Sign.SignRecord | components/records/sign-record-button.tsx:39-118 | no user, a blank password, a failed re-authentication or a failed insert each show their error and write nothing; success appends one signature row hashed over record id, version, signer, intent and time, and an approval whose update took effect sets the record approved |
| Sign.StoredSignatureNeedsHashedTime | components/records/sign-record-button.tsx:70-98 | the row binds record, version, signer and intent; with a collision-free digest its hash verifies iff the verifier supplies the hashed time, which the row does not store |
| Sign.StoredSignatureBindsIntent | components/records/sign-record-button.tsx:70-98 | with a collision-free digest a signature verifies for no other intent |
| Sign.ApprovalOverridesAnyStatus | components/records/sign-record-button.tsx:105-110 | approval sets every row with the id to approved, whatever its status was, and changes nothing else |
| StatusActions.OfferedByStatus | components/records/record-status-actions.tsx:61-115 | submit is offered iff allowed and the status is draft; reject is offered iff allowed and the status is submitted or under review; approved, rejected and amended offer nothing; at most one button shows |
| StatusActions.NoApproveAction | components/records/record-status-actions.tsx:61-106 | submit requests under review and reject requests rejected; nothing requests approved or submitted |
| StatusActions.RejectReason | components/records/record-status-actions.tsx:106 | a blank reason is left out; any other is trimmed and non-empty |
| StatusActions.RejectReasonIdempotent | components/records/record-status-actions.tsx:106 | a sent reason is already trimmed, and normalising twice changes nothing |
| StatusActions.RequestText | components/records/record-status-actions.tsx:45 | an undefined reason writes no member; otherwise the text is status, then reason |
| StatusActions.RejectRequestText | components/records/record-status-actions.tsx:106 | the reject body omits a blank reason and carries any other reason trimmed |
| StatusActions.ErrorOf | components/records/record-status-actions.tsx:47-53 | the body's non-empty error, else the status text; for a thrown error, its message, or "Failed to update status" for a non-Error |
| StatusActions.AfterUpdate | components/records/record-status-actions.tsx:38-57 | success closes the dialog and clears the reason and the error; failure keeps both and sets the error; loading ends either way |
| Blockchain.ChainFor | lib/blockchain.ts:32 | mainnet iff `ANCHOR_CHAIN_ID` is exactly "1", otherwise base |
| Blockchain.PrefixKey | lib/blockchain.ts:35 | the key gets a `0x` prefix only when it lacks one |
| Blockchain.PrefixKeyIdempotent | lib/blockchain.ts:35 | prefixing twice is prefixing once |
| Blockchain.PadStart | lib/blockchain.ts:47 | a shorter text is left-padded with zeros to the width; a longer one is kept |
| Blockchain.HashHex | lib/blockchain.ts:44-47 | always 64 hex characters; a 64-character hex hash passes unchanged; anything else becomes its UTF-8 hex, zero-padded or cut to the first 64 |
| Blockchain.HashHexIdempotent | lib/blockchain.ts:44-47 | normalising twice is normalising once |
| Blockchain.SharedPrefixCollides | lib/blockchain.ts:47 | non-hex hashes that share their first 32 UTF-8 bytes anchor the same data |
| Blockchain.AnchorRecord | lib/blockchain.ts:16-72 | without URL or key, and on any send failure, the result is {null, null}; otherwise the receipt's hash, with a nonzero block number returned as is and a zero block number read as null |
| Blockchain.UnconfiguredSendsNothing | lib/blockchain.ts:24-26 | without both variables the result does not depend on the network |
| Blockchain.AnchorRequestShape | lib/blockchain.ts:32-55 | the transaction goes to the chosen chain with a `0x` key, value 0, gas 100000, and data of `0x` plus 64 hex characters |
| Blockchain.VerifyAnchor | lib/blockchain.ts:78-99 | the result is true iff the transaction hash and RPC URL are set and the lookup finds the transaction |
| Blockchain.VerifyIgnoresContent | lib/blockchain.ts:92-95 | anchors with the same transaction hash verify alike, whatever content hash they claim |
| StudyActions.CreateStudy | app/studies/actions.ts:10-74 | no user redirects to sign-in; a blank title or a failed study insert writes nothing; a failed membership keeps the study row only; otherwise it writes the study row, then the admin membership granted by the creator, then one `study_created` event targeting the study with null previous hash and the state hash; records and signatures never change |
| StudyActions.AddCreatorAndLog | app/studies/actions.ts:43-71 | a failed membership insert returns its message and logs nothing; otherwise the admin membership is stored, then the event is logged or the append error returned |
| StudyActions.LogStudyCreated | app/studies/actions.ts:54-71 | a successful append adds exactly the `study_created` event over the stored fields; a failed one adds nothing and returns the prefixed message |
| StudyActions.TitleMissingIff | app/studies/actions.ts:24-26 | a title is missing exactly when it is absent or trims to the empty string |
| StudyActions.TitleNormalised | app/studies/actions.ts:24-31 | a stored title is trimmed and non-empty |
| StudyActions.DescriptionNormalised | app/studies/actions.ts:32 | a stored description is trimmed and non-empty, or null exactly when the form's was absent or blank |
| StudyActions.StudyRowNormalised | app/studies/actions.ts:20-37 | the study row has a trimmed title and a normalised description; its status is the sent text or defaults to draft, unchecked |
| StudyActions.BlankDescriptionText | app/studies/actions.ts:54-59 | a blank description is hashed as `""`, and its state text differs from the one with no description |
| StudyActions.BlankDescriptionHashDiverges | app/studies/actions.ts:32-57 | a blank description and none store the same row but, with a collision-free digest, get different state hashes |
| EnvLoader.StripQuotesSlice | scripts/create-test-user.js:33 | at most one leading and one trailing character are removed |
| EnvLoader.StripQuotesQuoted | scripts/create-test-user.js:33 | quotes around a value are removed, whichever quote characters they are |
| EnvLoader.StripQuotesPlain | scripts/create-test-user.js:33 | an unquoted value is kept |
| EnvLoader.ParseLineMeaning | scripts/create-test-user.js:29-35 | a line gives an entry iff, trimmed, it is not blank, is no comment and has an `=` after its first character; the key is trimmed and non-empty; the value is everything after the first `=`, unquoted and trimmed, and `KEY=` gives "" |
| EnvLoader.ParseLineIs | scripts/create-test-user.js:28-35 | what a line yields, read off the trimmed line and the position of its first `=` |
| EnvLoader.EnvOfKeys | scripts/create-test-user.js:34 | the keys read are exactly the keys of the entries |
| EnvLoader.EnvOfLast | scripts/create-test-user.js:34 | a key's value comes from its last entry |
| EnvLoader.ReadEntries | scripts/create-test-user.js:26-37 | the loop collects the entries of the lines, later ones overriding earlier |
| EnvLoader.ProcessEnv.LoadEnv | scripts/create-test-user.js:22-43 | an unreadable file leaves the environment unchanged; otherwise the entries read are assigned over it |
| EnvLoader.LoadedValue | scripts/create-test-user.js:34-39 | after loading, a key the file sets has its last entry's value, and every other variable keeps its value |
| Proxy.Decide | proxy.ts:4-63 | it redirects iff the client works and either a signed-out user asks for a protected page (to sign-in, with `redirectedFrom`) or a signed-in user asks for an auth page (to /studies); everything else passes |
| Proxy.RulesDisjoint | proxy.ts:37-54 | no path is both protected and an auth page |
| Proxy.NoRedirectLoop | proxy.ts:37-54 | the target of a redirect passes for the same visitor |
| Proxy.PrefixGatesLongerPaths | proxy.ts:37-38 | any path that merely begins with `/studies` is gated |

## Left out

- Page rendering, dialogs, router calls, React state setters and cookie handling are presentation and framework plumbing. This covers the proxy's `setAll` and its `matcher` regex.
- Database query execution, row-level security and column defaults are outcome values, not modelled. The generated ids and timestamps and each insert's success or failure are parameters.
- SHA-256, `TextEncoder` and the UTF-8 encoder are the platform's, so they are function parameters. Hash uniqueness is the hypothesis `CollisionFree`, used only where stated.
- The clock, `api.ipify.org`, `window.navigator` and every viem call (send, receipt, lookup) are I/O, so they are parameters.
- `getAuditEventsForExport` is not defined in the repository's audit library, so the export read is an opaque function of the normalised query.
- A stored timestamp's text and `String(metadata)` in the CSV export are opaque renderers.
- `Amend.AmendRecord`: record content is a `Json.Value` whose numbers are integers. Record content is parsed from text the user types when the record is created, so it can hold a fraction or an exponent. Record creation is not part of this model. An amendment copies that content and hashes it, but such a number, and the way `JSON.stringify` writes it into the hashed text, are not modelled.
- `SystemActions.PostSystemAction`: the body's fields are taken as text and `systemMetadata` as an object. Several cases are therefore not modelled:
  - A truthy non-text field, such as `studyId: 7` or `newStateHash: {}`, passes the required-field check and is forwarded.
  - A falsy non-text optional field, such as `targetEntityId: 0` or `false`, is turned into null.
  - A non-object `systemMetadata` is spread into the metadata: a string gives its characters under their indices, and a number or boolean gives no keys.
  - Non-integer numbers inside the caller's metadata are not modelled either.
- `Blockchain.AnchorRecord`: the block number is an unbounded integer. The rounding of `Number()` on a block number above 2^53 is not modelled.
- `Proxy.Decide`: the query is a map, so the order of `URLSearchParams` and repeated names are not modelled. `set('redirectedFrom', …)` also removes the other entries of that name, and the model does not show this.
- `AuditExport.ExportLimit`: `Number()` parsing is not modelled. The parameter is an optional integer, and a non-numeric text is modelled as missing.
- `VersionHistory.VersionChain`: requires that links among the fetched rows lead to smaller versions. The page's `while` loop has no cycle guard and never ends on cyclic data. `TwoCycleNeverEnds` states that case.
- `Amend.AmendRecord`: requires the inserted id to be fresh, as the table's primary-key generator guarantees.
- The records list turns the map into an array with `Object.values`. That order, and what `__proto__` does as a record number or `.env` key in a plain JavaScript object, are not modelled.
- `StatusActions.ErrorOf`: the reply body's `error` field is taken as text or absent. A non-string JSON error value is not modelled.
- `EnvLoader.ProcessEnv.LoadEnv`: the variables are a map of strings. JavaScript's coercion of `process.env` values is not modelled.
- Concurrency and atomicity are not modelled. The source has no guards against concurrent amendments or a half-finished sign-and-approve, so the model is sequential.
- `createTestUser`'s admin API calls and the client construction in `lib/supabase/admin.ts` are remote calls and are left out. Only `loadEnv` is modelled.
- Study status is stored as the sent text and not checked against the four study statuses, as in the source.
