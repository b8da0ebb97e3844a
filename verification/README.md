# Verified model of the devos-api database layer

devos-api keeps its hard rules in the database: foreign keys with actions, row-level security
policies, a setting on pooled connections, a key-rotation script, and migrations that must undo
and converge. This project models those parts in Dafny and proves what they promise, for every
store, every run and every interleaving.

| module | what it models |
|---|---|
| `Referential` | DELETE under a foreign-key graph with CASCADE, SET NULL and NO ACTION, as a worklist over a mutable store (ISO/IEC 9075-2, section 11.8) |
| `Tightening` | the 23 foreign keys that 1769913983449 drops and adds again with equal or weaker actions |
| `ChatSchema`, `SchemaMatch`, `ChatMembers` | the foreign keys around users, workspaces, agents and chat, with their cycle; that they are those the migrations create; the invariant of chat members |
| `RowSecurity` | the `api_usage` policies in three-valued logic, in two versions |
| `ConnectionPool`, `Interceptor` | `app.current_workspace_id` on the connections of a pool, transaction and session scope, any interleaving |
| `KeyFormat`, `EncryptionService`, `KeyRotation`, `KeyHistory` | the stored form of BYOK keys, in the script and in the service, one rotation, any run of rotations; the cipher is an ideal one (NIST SP 800-38D, section 7), the key derivation injective but for the zero bytes with which HMAC fills up the salt (RFC 5869, section 2.2; RFC 2104, section 2) |
| `Catalog`, `Integrity`, `Undo`, `TakenTypes`, `Blueprints`, `Statements` | a catalog with dependencies and rows, statements and scripts; what one statement does to any database and what every script keeps; when `down` undoes `up`, and what it does where types were there before |
| `ChatMigration`, `ApprovalMigration`, `SprintMigration`, `HistoryMigration` | four migrations as lists of names and definitions |
| `Migrations` | what holds of these four, and of any stack of such migrations |
| `GuardedMigration` | migrations that add only what is missing |
| `Backfill` | the column, foreign key and backfill of `users.current_workspace_id` |

`dafny verify dfyconfig.toml` checks the project.

## What the proofs show about the code

- A user's deletion on the cyclic graph always ends, whichever pending action is taken first, in
  one store: the least set closed under CASCADE is gone. The rows that SET NULL reaches on `users`
  and `workspaces` also get a new `updated_at`, because the update trigger fires (InitialSchema, 192-218).
- After 1769913983449 a user who owns a workspace cannot be deleted any more. Twelve of its 23 keys become NO ACTION:
  both keys of workspace members, invitations, projects and onboarding status, and one key each of users, workspaces,
  workspace settings and BYOK secrets. A row that stays blocks the delete of what it references through them.
- The interceptor sets the context with transaction scope in a statement of its own. Its comment
  (lines 14-23) says that this enables workspace-scoped queries; under the fixed policies no query
  on any connection sees any row of `api_usage`, every INSERT is refused, and UPDATE and DELETE reach
  no row, whatever transactions the handlers open, as long as every `set_config` call has transaction
  scope and none runs inside one. The isolation fails closed.
- `clear_workspace_context` does not always clear. A connection goes back to the pool unset exactly
  when the clear ran outside a transaction, or its transaction committed with no failure, or the value
  from before that transaction was unset: set, BEGIN, clear, ROLLBACK leaves the workspace on the connection.
- FixRLSNullBypass says that the earlier policies had an IS NULL bypass; AddApiUsageRLS itself has none.
  The two versions differ exactly on a NULL context. On a pooled connection the context is NULL until the
  first `set_config` that takes effect, outside a transaction or in one that has not failed, and never
  again: until then the bypass shows every row to a query that runs, afterwards the versions show the same rows.
- A policy of another name on `api_usage` stays when either migration replaces its four; the decisions are
  those of the four if and only if it admits no row of another workspace.
- Non-interference holds up to one error: over any run, w's outputs are those it would get alone if and only if
  it never inserts under an id that another workspace uses.
- Rotation reads the rows before its transaction begins. A key changed in between is overwritten with
  what was fetched. A key that the service creates after the fetch and before the application restarts stays
  at the old settings. While both it and a rotated key stay on, only a rotation that had fetched before can
  commit: until one does, none that fetches from then on commits, whatever its settings. One that had fetched
  before commits exactly when every row it fetched was at its old settings then, and moves those rows to its new
  ones. A key that is inactive at the fetch is left behind too once it is active again; the service only ever
  switches keys off, so that needs a write from outside the code. Switching rows off helps exactly when the
  active rows that remain are all at one epoch. With nothing in between its steps the documented procedure is safe.
- The start-up check of the rotation script counts 64 characters. It accepts settings that are not hex, and
  different settings with one effect: decoding stops at the first pair that is not hex, and a salt may go on
  with zero bytes. The exact condition is proved for every two settings that it accepts.
- The chat migration skips a type that exists already. Its `down` drops that type all the same if no object
  needs it, so the type is lost; if an object needs it, `down` fails. Undo holds exactly when no new name was taken.
- AddConversationHistory writes IF EXISTS in every statement of `down`, but a second `down` fails all the same:
  it alters `conversation_threads`, which the first has dropped. That of the chat migration can be repeated.
- A guarded migration adds a CHECK only together with its column. A column that was there already stays unchecked.
- `down` of the backfill migration does not restore the rows: the UPDATE fires the `updated_at` trigger on
  every user. The database is restored exactly when every `updated_at` already had the time of the migration.

## Model

| member | source | states |
|---|---|---|
| Referential.ClosureIsLeast | src/database/migrations/1739700000000-CreateMultiUserChat.ts:90-205 | the rows a delete removes are the least set that contains the root and is closed under CASCADE |
| Referential.StepKeepsInv | src/database/migrations/1739700000000-CreateMultiUserChat.ts:90-205 | every single cascade or nulling, in any order, keeps the deleted rows inside that set, the survivors' data, and an account of all work still owed |
| Referential.StepDecreases | src/database/migrations/1738184400000-InitialSchema.ts:155-185 | each step removes a live row or shortens the list, so deletion ends on the users/workspaces cycle too |
| Referential.FinishedIsAftermath | src/database/migrations/1739700000000-CreateMultiUserChat.ts:90-205 | when no work is left, exactly the closure is gone and exactly the SET NULL references into it are cleared |
| Referential.OrderDoesNotMatter | src/database/migrations/1739700000000-CreateMultiUserChat.ts:174-205 | confluence: any two complete orders of the pending actions end in the same store |
| Referential.EveryRunCanFinish | src/database/migrations/1739700000000-CreateMultiUserChat.ts:90-205 | from every reachable state some order uses up the work |
| Referential.CascadeBeatsSetNull | src/database/migrations/1739700000000-CreateMultiUserChat.ts:174-178 | a row reached by CASCADE is gone, whatever its SET NULL columns |
| Referential.DeleteKeepsValid | src/database/migrations/1739700000000-CreateMultiUserChat.ts:90-205 | an accepted delete leaves no dangling reference and no NULL in a NOT NULL key |
| Referential.SurvivorsExactly | src/database/migrations/1739700000000-CreateMultiUserChat.ts:90-205 | exactly the rows outside the closure survive an accepted delete; deleting an absent row changes nothing |
| Referential.RejectedExactly | src/database/migrations/1769913983449-CreateAgentJobsTable.ts:135-154 | a delete is rejected if and only if a row that stays has a NO ACTION reference to one that would go |
| Referential.SurvivorsKeepTheRest | src/database/migrations/1738184400000-InitialSchema.ts:192-218 | a survivor loses exactly its SET NULL references to what goes, keeps every other value, and has the time of the delete in updated_at exactly when it lost one and its table has the trigger |
| Referential.Store.Delete | src/database/migrations/1739700000000-CreateMultiUserChat.ts:90-205 | the worklist loop over the mutable store gives the order-free meaning of DELETE, or rejects and changes nothing |
| Referential.FindsBlocked | src/database/migrations/1769913983449-CreateAgentJobsTable.ts:135-154 | the check at the end of the statement finds a violation exactly when a remaining row has a NO ACTION reference into the closure |
| ChatSchema.ChatIsWellFormed | src/database/migrations/1739700000000-CreateMultiUserChat.ts:90-205 | no key of the schema is NOT NULL and SET NULL at once, and none is NO ACTION |
| ChatSchema.ChatKeysExactly | src/database/migrations/1738820000000-CreateChatMessages.ts:55-93 | every key references the table its column is named after; eight are SET NULL, and these and eight optional ones may be NULL |
| ChatSchema.ChatRowOutlives | src/database/migrations/1738820000000-CreateChatMessages.ts:55-93 | a row whose CASCADE references all stay outlives what its SET NULL column references and loses that reference: messages their author, messages and threads their agent |
| SchemaMatch.SchemaHasChatKeys | src/database/migrations/1739700000000-CreateMultiUserChat.ts:73-205 | the schema has every foreign key of the chat migration, with its target, and NOT NULL as its column |
| SchemaMatch.SchemaHasThreadKeys | src/database/migrations/1739600000000-AddConversationHistory.ts:14-110 | the same for the conversation history |
| SchemaMatch.MembersOfDatabase | src/database/migrations/1739700000000-CreateMultiUserChat.ts:97-120 | in every database where the constraints of the migration hold, each row of chat_room_members has an existing room and exactly one of an existing user and an existing agent |
| SchemaMatch.NobodyIsTwice | src/database/migrations/1739700000000-CreateMultiUserChat.ts:113-114 | and no user and no agent is in a room twice |
| ChatSchema.ChatDeletesAreAccepted | src/database/migrations/1738820000000-CreateChatMessages.ts:55-93 | every delete on the chat, agent and thread tables is accepted and leaves a valid store |
| ChatMembers.DeleteKeepsMembers | src/database/migrations/1739700000000-CreateMultiUserChat.ts:110-118 | no delete breaks the CHECK or the unique pairs, given that no link is SET NULL |
| ChatMembers.InsertKeepsAll | src/database/migrations/1739700000000-CreateMultiUserChat.ts:109-118 | an insert that passes the constraints keeps the store valid and the members right |
| ChatMembers.InsertableExactly | src/database/migrations/1739700000000-CreateMultiUserChat.ts:109-118 | an insert is accepted if and only if its id is new and every constraint holds with the row |
| ChatMembers.MembersInvariant | src/database/migrations/1739700000000-CreateMultiUserChat.ts:109-118 | both, over any run of inserts and deletes |
| ChatMembers.InsertAfterRun | src/database/migrations/1739700000000-CreateMultiUserChat.ts:109-118 | after any run an insert adds exactly its row where it is accepted, and changes nothing otherwise |
| ChatMembers.MembersOfChat | src/database/migrations/1739700000000-CreateMultiUserChat.ts:110-118 | over any run from the empty store each member has exactly one of user and agent, which exists, with (room, user) and (room, agent) unique |
| ChatMembers.WhenDeletesKeepMembers | src/database/migrations/1739700000000-CreateMultiUserChat.ts:111-112 | for any choice of actions on the two links, deletes keep the invariant if and only if neither link is SET NULL |
| Tightening.KeyCatalog.Execute | src/database/migrations/1769913983449-CreateAgentJobsTable.ts:7-29 | the statements run one by one; the catalog is the result of all of them or as it was |
| Tightening.ScriptKeepsHolding | src/database/migrations/1769913983449-CreateAgentJobsTable.ts:135-157 | a script that succeeds leaves every constraint holding in every row: ADD CONSTRAINT checks the rows |
| Tightening.ScriptKeepsNames | src/database/migrations/1769913983449-CreateAgentJobsTable.ts:7-29 | a constraint that the script does not drop stays as it was: no name is taken over |
| Tightening.PriorKeysExactly | src/database/migrations/1769913983449-CreateAgentJobsTable.ts:7-29 | the 23 keys dropped, each on its column's table, CASCADE and NOT NULL but for four that were SET NULL |
| Tightening.AddedKeyExactly | src/database/migrations/1769913983449-CreateAgentJobsTable.ts:135-157 | each key added has the column and target of the key dropped; twelve become NO ACTION, the other eleven keep their action |
| Tightening.AddsTheSameEdges | src/database/migrations/1769913983449-CreateAgentJobsTable.ts:135-157 | so each of the 23 pairs has one edge, and its action or NO ACTION |
| Tightening.UpTightens | src/database/migrations/1769913983449-CreateAgentJobsTable.ts:7-29 | on any valid store the drops and re-adds succeed, and the schema they leave tightens the one before |
| Tightening.TightensExactly | src/database/migrations/1769913983449-CreateAgentJobsTable.ts:135-157 | on every catalog it can start from, the migration changes the actions of these twelve columns and nothing else in the schema |
| Tightening.RejectedThroughTightened | src/database/migrations/1769913983449-CreateAgentJobsTable.ts:135-157 | afterwards a delete is rejected when a row that stays references the root, or what goes with it, through one of the twelve columns |
| Tightening.TighteningIsConservative | src/database/migrations/1769913983449-CreateAgentJobsTable.ts:135-157 | a delete accepted afterwards ends in the store the old actions gave; it is accepted exactly when it was before and no remaining row is pinned by a tightened key |
| Tightening.OwnersCannotBeDeleted | src/database/migrations/1769913983449-CreateAgentJobsTable.ts:139 | on every catalog the migration can start from, where owner_user_id is the only foreign key of workspaces: deleting an owner took the workspace along before, and is rejected afterwards |
| RowSecurity.PolicyCatalog.Up | src/database/migrations/1738475000000-FixRLSNullBypass.ts:18-61 | whatever policies were there, the four fixed ones are there afterwards, and those of other names as before |
| RowSecurity.PolicyCatalog.Down | src/database/migrations/1738475000000-FixRLSNullBypass.ts:63-105 | whatever policies were there, the four with the NULL bypass are there afterwards, and those of other names as before |
| RowSecurity.FixedExactlyWithoutWiderPolicies | src/database/migrations/1738475000000-FixRLSNullBypass.ts:18-61 | after `up` the table decides as the fixed policies say if and only if no policy of another name admits a row that is not the context's |
| RowSecurity.PoliciesGuard | src/database/migrations/1738470000000-AddApiUsageRLS.ts:30-66 | for any policies, every row read, added, changed or removed has passed the policies of its command, before and after |
| RowSecurity.PoliciesStopNothingElse | src/database/migrations/1738470000000-AddApiUsageRLS.ts:30-66 | and no other row is kept from a statement; when a statement fails a check is exact |
| RowSecurity.VersionsDifferOnNull | src/database/migrations/1738475000000-FixRLSNullBypass.ts:27-104 | the versions decide a row alike exactly when the context is not NULL |
| RowSecurity.VersionsAgreeOnRuns | src/database/migrations/1738475000000-FixRLSNullBypass.ts:27-104 | runs whose contexts are never NULL give equal outputs and tables under both versions |
| RowSecurity.NullContext | src/database/migrations/1738475000000-FixRLSNullBypass.ts:27-104 | on a NULL context the fixed version denies everything, the bypass version acts like a table without policies |
| RowSecurity.OwnRowsAlone | src/database/migrations/1738470000000-AddApiUsageRLS.ts:30-66 | a statement under w acts as on w's rows alone, unless and only unless it inserts under an id used elsewhere |
| RowSecurity.OwnRowsUnrestricted | src/database/migrations/1738475000000-FixRLSNullBypass.ts:27-60 | on w's own rows the policies refuse what would write into another workspace and nothing else |
| RowSecurity.OthersUntouched | src/database/migrations/1738470000000-AddApiUsageRLS.ts:30-66 | a statement under any other context, unset included, leaves w's rows as they are |
| RowSecurity.NonInterference | src/database/migrations/1738475000000-FixRLSNullBypass.ts:27-60 | whatever other sessions do, w's statements receive what they would alone on w's rows if and only if none of them inserts under a foreign id; they then leave w's rows the same |
| RowSecurity.OnlyOwnRowsMatter | src/database/migrations/1738475000000-FixRLSNullBypass.ts:27-60 | two tables equal on w's rows are indistinguishable to w over any run |
| ConnectionPool.StateReflectsHistory | src/common/interceptors/workspace-context.interceptor.ts:83-121 | with transaction-scoped calls only, a connection's state says exactly which value its open, unfailed transaction set last |
| ConnectionPool.SeesOnlyWhatItsTransactionSet | src/common/interceptors/workspace-context.interceptor.ts:74-82 | a query sees a row if and only if its workspace was last set in the same open transaction; outside a transaction there is no context |
| ConnectionPool.ConnectionsAreIndependent | src/common/interceptors/workspace-context.interceptor.ts:83-121 | in every interleaving a connection's state is that of its own actions |
| ConnectionPool.PoolIsolation | src/common/interceptors/workspace-context.interceptor.ts:83-121 | the same if and only if, in every interleaving over any number of connections |
| ConnectionPool.AutocommitContextIsLost | src/common/interceptors/workspace-context.interceptor.ts:89-92 | contexts set as statements of their own show no row to any later query |
| ConnectionPool.SharedTransactionSeesOwnRows | src/common/interceptors/workspace-context.interceptor.ts:74-82 | when one transaction sets w and queries, the queries see exactly w's rows |
| ConnectionPool.ContextIsNullUntilSet | src/database/migrations/1738475000000-FixRLSNullBypass.ts:63-104 | over any history of a connection the context is NULL if and only if no set_config of either scope ran outside a transaction or in an unfailed one |
| ConnectionPool.VersionsDifferUntilSet | src/database/migrations/1738475000000-FixRLSNullBypass.ts:18-104 | a query sees the same rows under both versions if and only if a set_config has taken effect on its connection or its transaction has failed |
| ConnectionPool.PoolUnderBypass | src/database/migrations/1738475000000-FixRLSNullBypass.ts:63-104 | in every interleaving a query under the bypass sees a row if and only if its transaction set the row's workspace last, or no set_config has taken effect on its connection and its transaction has not failed |
| ConnectionPool.SessionScopeLasts | src/database/migrations/1738470000000-AddApiUsageRLS.ts:69-86 | a value set or cleared with session scope lasts over statements and COMMIT; ROLLBACK brings back the earlier session value |
| ConnectionPool.LastSetCounts | src/common/interceptors/workspace-context.interceptor.ts:74-92 | in an open transaction the value set last counts, whatever its scope; COMMIT keeps the session value only |
| ConnectionPool.ClearLasts | src/database/migrations/1738470000000-AddApiUsageRLS.ts:79-86 | over any history that ends outside a transaction and whose last session-scoped call is a clear: the setting is unset if and only if the clear ran outside a transaction, or its transaction committed unfailed, or the value before that transaction was unset |
| ConnectionPool.SessionBracket | src/database/migrations/1738470000000-AddApiUsageRLS.ts:69-86 | the same on the pool, in every interleaving, for set, any work, clear and later use; where the set ran outside a transaction only the first two cases are left |
| ConnectionPool.RollbackBringsTheContextBack | src/database/migrations/1738470000000-AddApiUsageRLS.ts:69-86 | the failing input: set w, BEGIN, clear, ROLLBACK leaves w on an idle connection |
| Interceptor.Intercept | src/common/interceptors/workspace-context.interceptor.ts:34-72 | no workspace means the handler alone; a failing set means two events, the failure and the clear, and the error response; otherwise the set, the handler and the clear, each on its connection; afterwards a query sees exactly what its own open transaction set |
| Interceptor.NoQuerySeesARow | src/common/interceptors/workspace-context.interceptor.ts:83-121 | however requests are interleaved and whatever transactions they open, with every set_config call outside a transaction no query on any connection sees a row |
| Interceptor.EveryStatementIsDenied | src/common/interceptors/workspace-context.interceptor.ts:83-121 | in the same runs every statement on every connection is denied: INSERT is refused, UPDATE and DELETE affect no row, the table stays |
| Interceptor.HandlersSeeNothing | src/common/interceptors/workspace-context.interceptor.ts:45-67 | the same at every point of a bracketed request |
| KeyFormat.HexRoundTrip | scripts/reencrypt-byok-keys.ts:90-92 | decoding the hex of any bytes, none included, gives them back |
| KeyFormat.HexInjective | scripts/reencrypt-byok-keys.ts:69-70 | hex texts of one length name the same bytes exactly when their digits have the same values |
| KeyFormat.DigitsExactly | scripts/reencrypt-byok-keys.ts:69-70 | the characters that decode are exactly the sixteen digits in either case |
| KeyFormat.HexIgnoresCase | scripts/reencrypt-byok-keys.ts:69-70 | upper and lower case decode to the same bytes |
| KeyFormat.HexStops | scripts/reencrypt-byok-keys.ts:69-70 | decoding ends where fewer than two characters are left or one of the next two is no digit |
| KeyFormat.SameBytesExactly | scripts/reencrypt-byok-keys.ts:69-70 | any two texts name the same bytes exactly when decoding stops at one place in both and the digits before it have the same values |
| KeyFormat.SplitThenJoin | scripts/reencrypt-byok-keys.ts:85 | splitting loses nothing, and no part holds the separator |
| KeyFormat.SplitPair | scripts/reencrypt-byok-keys.ts:85-88 | two parts without the separator come back as exactly two parts, empty ones included |
| KeyFormat.FormatRoundTrip | scripts/reencrypt-byok-keys.ts:118-121 | the printed tag and ciphertext are read back as they were, whatever bytes they are |
| KeyFormat.StoredForm | scripts/reencrypt-byok-keys.ts:103-122 | the stored text holds tag, then ciphertext, as two hex parts, and the nonce apart |
| KeyFormat.InvalidFormatExactly | scripts/reencrypt-byok-keys.ts:85-88 | a stored text is rejected for its form if and only if it does not have exactly one ':' |
| KeyFormat.DecryptAfterEncrypt | scripts/reencrypt-byok-keys.ts:77-122 | decrypt after encrypt for the same workspace, key and salt is the identity |
| KeyFormat.DecryptsExactlyUnder | scripts/reencrypt-byok-keys.ts:60-101 | under an ideal cipher exactly the settings with the same key bytes, and salts that are one HMAC key, decrypt; all others fail |
| KeyFormat.OtherWorkspaceCannotDecrypt | scripts/reencrypt-byok-keys.ts:65-73 | the key of another workspace never decrypts |
| EncryptionService.StartsWithSettings | src/shared/encryption/encryption.service.ts:14-31 | the service starts with exactly the settings that the script accepts |
| EncryptionService.WorkspaceKeyExactly | src/shared/encryption/encryption.service.ts:115-130 | only the key, an equivalent salt and the info string `workspace:` with the id give the key of a workspace |
| EncryptionService.WritesAlike | src/shared/encryption/encryption.service.ts:138-166 | the service writes exactly the text that the script writes |
| EncryptionService.ReadsAlike | src/shared/encryption/encryption.service.ts:175-211 | it reads exactly what the script reads, failures included |
| EncryptionService.RotatedKeyIsServed | scripts/reencrypt-byok-keys.ts:175-198 | a key that the service created and the script rotated is read back by the service exactly under the new secrets |
| KeyFormat.WholeExactlyWhenHex | scripts/reencrypt-byok-keys.ts:39-57 | what the length check accepts names 32 bytes if and only if it is hex |
| KeyFormat.InterchangeableExactly | scripts/reencrypt-byok-keys.ts:38-75 | for any two settings that the length check accepts: they are interchangeable if and only if the keys name the same bytes and one salt extends the other by zero bytes only, stated on the characters |
| KeyFormat.LengthCheckAdmitsEqualKeys | scripts/reencrypt-byok-keys.ts:38-57 | it accepts two settings with different keys and salts of different bytes that have the same effect |
| KeyFormat.IdealCipherExists | scripts/reencrypt-byok-keys.ts:60-75 | the assumptions on cipher and derivation can be met |
| KeyRotation.RotateOne | scripts/reencrypt-byok-keys.ts:175-206 | one row: it succeeds exactly when the transaction is healthy, the row decrypts and the update is accepted; otherwise the rows stay |
| KeyRotation.RotateAll | scripts/reencrypt-byok-keys.ts:171-206 | successes and errors add up to the rows fetched; the errors are exactly the rows that do not decrypt and those from the first refused update on; without errors exactly these rows are rewritten |
| KeyRotation.ReencryptKeys | scripts/reencrypt-byok-keys.ts:125-244 | with any writes between fetch and transaction: a failed row or COMMIT leaves the table the transaction began on; otherwise every row fetched holds its old plaintext under the new settings, and nothing else changed |
| KeyRotation.Transaction.Commit | scripts/reencrypt-byok-keys.ts:208-210 | commit is issued only on a transaction that is not aborted |
| KeyHistory.CommittedRotation | scripts/reencrypt-byok-keys.ts:175-210 | each fetched row decrypts under the new settings to what it was under the old; workspaces and inactive rows are unchanged |
| KeyHistory.WritesInBetweenAreLost | scripts/reencrypt-byok-keys.ts:146-198 | a write between fetch and update survives exactly when it kept the plaintext |
| KeyHistory.KeysStayReadable | scripts/reencrypt-byok-keys.ts:146-232 | over any run of creations, switches, restarts, fetches and transactions of any number of rotations, crossing in any order, no row loses its plaintext: it decrypts under the settings of its last rotation or creation, and under no others |
| KeyHistory.SomeAttemptCommits | scripts/reencrypt-byok-keys.ts:208-229 | some rotation of the table commits if and only if all active rows are at one epoch |
| KeyHistory.CommitsExactlyAtOneEpoch | scripts/reencrypt-byok-keys.ts:208-229 | an undisturbed rotation commits exactly when every active row is at the old settings |
| KeyHistory.WaitingCommitsExactly | scripts/reencrypt-byok-keys.ts:146-229 | a rotation between fetch and transaction will commit exactly when every row it fetched was at its old settings then, whatever happens in between |
| KeyHistory.MixedEpochsBlockRotation | scripts/reencrypt-byok-keys.ts:146-229 | two active rows at different settings, in any run that switches neither off: no rotation commits if and only if no rotation that had fetched before, and will commit, has its transaction in the run |
| KeyHistory.CrossingRotationsCommit | scripts/reencrypt-byok-keys.ts:146-232 | of two crossing rotations the first leaves the rows at different settings, and the waiting one commits all the same and brings both to its own |
| KeyHistory.CrossingIsReached | scripts/reencrypt-byok-keys.ts:146-232 | the service and the script alone reach that, by creating a key between the two fetches |
| KeyHistory.SwitchingOffUnblocks | scripts/reencrypt-byok-keys.ts:146-149 | after a row is switched off some rotation commits if and only if the other active rows are at one epoch |
| KeyHistory.LateKeyIsLeftBehind | src/modules/byok/services/byok-key.service.ts:135-156 | a key created after a committed rotation and before the restart is active at the old settings, beside rows at the new ones |
| KeyHistory.KeyCreatedMeanwhileIsLeftBehind | src/modules/byok/services/byok-key.service.ts:135-156 | so is a key created between the fetch and the transaction |
| KeyHistory.RowOffIsLeftBehind | scripts/reencrypt-byok-keys.ts:146-149 | so is a row that was inactive at the fetch and is active again after the commit |
| KeyHistory.RunThatEndsRotation | scripts/reencrypt-byok-keys.ts:146-232 | a run of the service and the script alone, one key, its rotation and a second key created before the restart, reaches mixed settings, and no later rotation commits while both keys stay on |
| KeyHistory.DeployTakesEffect | src/shared/encryption/encryption.service.ts:14-31 | over any run, a key created after a restart, with no later restart, decrypts under the settings of that restart, and under others only with the same secrets |
| KeyHistory.ProcedureKeepsOneEpoch | scripts/reencrypt-byok-keys.ts:213-219 | the documented procedure, rotate and then restart with the new settings: over any creations and deactivations the application reads every active key, and a rotation from the new settings commits |
| Catalog.Database.Migrate | src/database/migrations/1739700000000-CreateMultiUserChat.ts:13-237 | a migration runs statement by statement in one transaction, with the result of its script or no change |
| Statements.DropTableExactly | src/database/migrations/1738790000000-CreateSprints.ts:71 | DROP TABLE is refused if and only if a key of another table references it; it takes its columns, constraints and indexes, and changes no other table |
| Statements.DropColumnExactly | src/database/migrations/1738790000000-CreateSprints.ts:65 | DROP COLUMN is refused if and only if a generated column reads it or another table's key references it; it takes the constraints and indexes that name it, and its cells alone |
| Statements.DropTypeExactly | src/database/migrations/1738790000000-CreateSprints.ts:74 | DROP TYPE is refused if and only if a column has the type; nothing else changes |
| Statements.DropPartExactly | src/database/migrations/1738790000000-CreateSprints.ts:58-63 | DROP CONSTRAINT and DROP INDEX succeed on what is there and take that alone |
| Statements.AddForeignKeyExactly | src/database/migrations/1738790000000-CreateSprints.ts:45-48 | ADD FOREIGN KEY succeeds if and only if every value in the column is NULL or the id of a row of the target |
| Statements.AddKeyExactly | src/database/migrations/1739700000000-CreateMultiUserChat.ts:113-114 | a UNIQUE constraint holds if and only if no two rows coincide, without NULL, in all its columns |
| Statements.AddCheckExactly | src/database/migrations/1745000000000-AddFeaturedTemplateFields.ts:53-58 | a CHECK is added if and only if the rows meet it, with NULL passing a comparison |
| Statements.AddColumnExactly | src/database/migrations/1738680000000-CreateDeploymentApprovals.ts:12-16 | ADD COLUMN is refused if and only if it is NOT NULL, has no default, and the table has rows |
| Integrity.SatisfiedAlike | src/database/migrations/1739700000000-CreateMultiUserChat.ts:97-120 | whether a constraint holds depends only on the tables and columns it names |
| Integrity.ExecKeepsIntact | src/database/migrations/1738680000000-CreateDeploymentApprovals.ts:6-62 | a statement that succeeds, CREATE or DROP of any kind, leaves every object with what it needs and every constraint holding in every row |
| Integrity.ScriptsKeepIntact | src/database/migrations/1738680000000-CreateDeploymentApprovals.ts:6-62 | the same over every script, whatever its statements |
| Undo.WithTwice | src/database/migrations/1739600000000-AddConversationHistory.ts:85-138 | adding objects in two steps, old rows widened each time, is adding them at once |
| Undo.WithoutWith | src/database/migrations/1739700000000-CreateMultiUserChat.ts:239-279 | removing added objects gives back the catalog and every row |
| Undo.Plan.UpSucceeds | src/database/migrations/1739700000000-CreateMultiUserChat.ts:13-237 | on any database with the needed objects, and none of the new names but types that are skipped, `up` succeeds and adds exactly the missing objects |
| Undo.Plan.UpGrowsRows | src/database/migrations/1738680000000-CreateDeploymentApprovals.ts:6-52 | no row comes or goes; old rows keep their values, and each new column holds its default, NULL, or what it is computed from; new tables are empty |
| Undo.Plan.NothingStillNeeds | src/database/migrations/1739700000000-CreateMultiUserChat.ts:239-279 | no statement of `down` drops what another object still uses |
| Undo.Plan.DownSucceeds | src/database/migrations/1739700000000-CreateMultiUserChat.ts:239-279 | `down` succeeds whatever was written since, and removes the new objects and nothing else |
| Undo.Plan.DownShrinksRows | src/database/migrations/1738680000000-CreateDeploymentApprovals.ts:54-62 | the rows keep the values of all columns that stay |
| TakenTypes.OutcomeWhereTypesAreTaken | src/database/migrations/1739700000000-CreateMultiUserChat.ts:14-279 | for every good plan and every database with the objects it refers to: `up` succeeds if and only if the taken names are types it skips; `down` then succeeds if and only if no object needs a taken type, and the result is the database without those types |
| Undo.Plan.UndoesExactlyWhenApart | src/database/migrations/1739700000000-CreateMultiUserChat.ts:13-279 | for every good plan `down` after `up` restores the database if and only if no new name was taken |
| Blueprints.Blueprint.PlanIsGood | src/database/migrations/1738790000000-CreateSprints.ts:6-75 | one condition per statement and per name is enough for a good plan, although `down` is not `up` reversed |
| Blueprints.Blueprint.RunUp | src/database/migrations/1738790000000-CreateSprints.ts:6-54 | `up` succeeds exactly when the taken names are types it skips, and otherwise changes nothing; the new objects are added, old rows get the defaults, every constraint that held still holds |
| Blueprints.Blueprint.RunDown | src/database/migrations/1738790000000-CreateSprints.ts:56-75 | from any database that grew from the one before, `down` leaves the old objects and every other value of every row; every constraint that held still holds |
| ChatMigration.IsGood | src/database/migrations/1739700000000-CreateMultiUserChat.ts:13-279 | the 30 statements of `up` and 30 of `down` meet the conditions |
| ApprovalMigration.IsGood | src/database/migrations/1738680000000-CreateDeploymentApprovals.ts:6-62 | the same for 7 and 7 statements, where an added column depends on a new type |
| SprintMigration.IsGood | src/database/migrations/1738790000000-CreateSprints.ts:6-75 | the same for 7 and 7 statements, where `down` drops a foreign key to a new table before its index |
| HistoryMigration.IsGood | src/database/migrations/1739600000000-AddConversationHistory.ts:14-192 | the same for 17 and 17 statements, with keys added after their table and a column generated from an old one |
| Migrations.DownUndoesUp | src/database/migrations/1739700000000-CreateMultiUserChat.ts:13-279 | each of the four: `down` after `up` restores every object and row if and only if no new name was taken |
| Migrations.DownAfterUse | src/database/migrations/1738680000000-CreateDeploymentApprovals.ts:54-62 | each of the four: `down` succeeds whatever was written since, and takes away exactly the new objects |
| Migrations.DownTwice | src/database/migrations/1739600000000-AddConversationHistory.ts:147-192 | a second `down` changes nothing for the chat migration and fails for the other three; that of the history has IF EXISTS throughout, but alters a table that the first has dropped |
| Migrations.WhereNamesAreTaken | src/database/migrations/1739700000000-CreateMultiUserChat.ts:14-70 | `up` fails on a taken name, except that the chat migration skips types; its `down` then drops the taken types, or fails exactly when an object needs one |
| Migrations.SkippedTypeIsLost | src/database/migrations/1739700000000-CreateMultiUserChat.ts:14-70 | every database that fits, with one of the types there before, loses that type |
| Migrations.PreferencesGetTheirMode | src/database/migrations/1738680000000-CreateDeploymentApprovals.ts:14-15 | after `up` every old project_preferences row holds 'automatic' |
| Migrations.StoriesGetNoSprint | src/database/migrations/1738790000000-CreateSprints.ts:38-54 | every old story has no sprint |
| Migrations.MessagesGetTheirHistory | src/database/migrations/1739600000000-AddConversationHistory.ts:85-137 | every old message has no conversation, is not archived, and is searched by its text |
| Migrations.MessagesGetNoRoom | src/database/migrations/1739700000000-CreateMultiUserChat.ts:197-200 | every old message has no room |
| Migrations.StackIsUndone | src/database/migrations/1738790000000-CreateSprints.ts:6-75 | any stack of good migrations, run in order and reverted from the last to the first, restores the database |
| Migrations.AnyOfTheFourAreUndone | src/database/migrations/1739700000000-CreateMultiUserChat.ts:13-279 | any of the four, each at most once, in any order, form such a stack on every database with the objects they refer to and none of their names |
| Migrations.TheFourAreUndone | src/database/migrations/1739700000000-CreateMultiUserChat.ts:13-279 | the four in their order |
| GuardedMigration.AddsTheMissing | src/database/migrations/1745000000000-AddFeaturedTemplateFields.ts:17-71 | from any subset of the columns `up` succeeds and adds exactly what is missing |
| GuardedMigration.Converges | src/database/migrations/1745000000000-AddFeaturedTemplateFields.ts:26-70 | all columns and indexes are there afterwards; a CHECK is there exactly when it was or its column was missing, and every CHECK added holds in all rows |
| GuardedMigration.ValuesKept | src/database/migrations/1745000000000-AddFeaturedTemplateFields.ts:26-58 | values that were there are kept |
| GuardedMigration.FeaturedTemplatesGet | src/database/migrations/1745000000000-AddFeaturedTemplateFields.ts:26-58 | where the columns were missing every template holds false, NULL, NULL and 'unknown' |
| GuardedMigration.PricedTemplatesGet | src/database/migrations/1747000000000-AddTemplatePricingColumns.ts:24-48 | where the columns were missing every template holds 'free' and NULL |
| GuardedMigration.Idempotent | src/database/migrations/1745000000000-AddFeaturedTemplateFields.ts:18-24 | a second `up` changes nothing, also after other objects were added |
| GuardedMigration.StaysIntact | src/database/migrations/1747000000000-AddTemplatePricingColumns.ts:24-48 | the catalog stays consistent and no constraint of any table is broken |
| GuardedMigration.SucceedsExactlyWhenNamesAreFree | src/database/migrations/1747000000000-AddTemplatePricingColumns.ts:24-48 | `up` succeeds if and only if no CHECK to be added has its name taken |
| GuardedMigration.BothConverge | src/database/migrations/1747000000000-AddTemplatePricingColumns.ts:15-54 | both migrations, one after the other, converge; a second round of either changes nothing |
| Backfill.FirstWorkspace | src/database/migrations/1738300400000-AddCurrentWorkspaceToUser.ts:36-42 | the loop finds the workspace of an earliest membership, or NULL exactly when there is none |
| Backfill.FillUsers | src/database/migrations/1738300400000-AddCurrentWorkspaceToUser.ts:34-44 | the UPDATE touches the users without a workspace and no others |
| Backfill.Up | src/database/migrations/1738300400000-AddCurrentWorkspaceToUser.ts:4-45 | the whole of `up` succeeds and every user has the workspace of an earliest membership or NULL; other tables are unchanged |
| Backfill.ForeignKeyHolds | src/database/migrations/1738300400000-AddCurrentWorkspaceToUser.ts:21-44 | the foreign key created before the backfill holds after it |
| Backfill.DownKeepsTheStamp | src/database/migrations/1738300400000-AddCurrentWorkspaceToUser.ts:47-57 | `down` gives back the catalog and the rows, with the trigger's updated_at in every user |
| Backfill.RestoredExactlyWhenStamped | src/database/migrations/1738300400000-AddCurrentWorkspaceToUser.ts:47-57 | the database is restored if and only if every updated_at had the time of the migration |

## Left out

- NOT NULL columns with SET NULL (for example `installed_agents.installed_by`): the outcome depends on the order of triggers.
- The order in which PostgreSQL fires its internal triggers: NO ACTION is checked at the end of the statement, as the standard says.
- DELETE of several rows in one statement, and `UPDATE` of referenced keys.
- Row locks and snapshots: what a query sees is a row of an arbitrary snapshot, filtered by the policies of its connection.
- Savepoints, roles that are exempt from policies, and values of `app.current_workspace_id` configured for a role, a database or the server.
- Policies FOR ALL and restrictive ones, and `UPDATE` of the primary key of `api_usage`.
- ChatSchema.ChatDeletesAreAccepted: speaks of the tables listed there. CreateSlackIntegrationTable, CreateDiscordIntegrationTable and CreateEmailConfigurationTables also reference users, with no action, so a user named in one of them is kept from being deleted unless its workspace goes too.
- Other constraints of `api_usage`: their errors are not outputs of the model.
- KeyFormat.DecryptAfterEncrypt: plaintexts are bytes; the UTF-8 conversion around the cipher is not modelled, nor are tag and IV lengths and the internals of AES-GCM and HKDF.
- Environment checks other than the lengths, the prompt, logging and the exit code of the rotation script.
- KeyRotation.ReencryptKeys: writers between the fetch and the transaction are modelled, writers during the transaction are not.
- Interceptor.Intercept: the clear that `finalize` starts is placed after the handler's events; it may come later in reality, and `NoQuerySeesARow` covers every placement. A response that the handler itself fails is not told apart.
- The labels of enum types: a type that is skipped because its name is taken counts as the same type, and values are not checked against labels.
- The times at which a key is created or switched: only a rotation stamps a row.
- Uniqueness through `CREATE UNIQUE INDEX`, column lengths, and the implicit names that PostgreSQL gives to indexes of PRIMARY KEY and UNIQUE constraints.
- `ON DELETE` actions in `Catalog`: a foreign key is an object with a column and a target there; `Referential` has the actions.
- The guarded `up` of CreateAgentsTable, and `down` of the two guarded migrations, which also drops columns that were there before.
- The statements of 1769913983449 other than its foreign keys: its `down` re-creates some indexes with other columns, so there is no exact undo.
- FixRLSNullBypass as an undo pair, and exact undo of InitialSchema: the one restores policies the earlier migration does not create, the other leaves the extension.
- Guards, decorators, permission tables, `WorkspaceContextMiddleware`, the remaining entities and network clients.
