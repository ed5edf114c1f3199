# mcp-armor: a verified model

mcp-armor is a guard in front of MCP servers. This project models its stateful
components and its scanners in Dafny and proves what they keep, over every
input and every run:

- sealed request state and its replay cache, and the registry of server-held
  handles (`Quota`, `HeapQueue`, `ReplayCache`, `ReplayRuns`, `Handles`, `HandleRuns`,
  `HandleClock`);
- the hash-chained audit log with its writer, verifier, seed reader and
  high-water-mark anchor (`AuditChain`, `AuditWriter`, `AuditRuns`, `AuditMeaning`);
- the bracket scanner and the plain-data views the scanners read
  (`BracketDepth`, `JsonDepth`, `FreshKeys`, `ScanView`, `ViewFacts`, `ViewMeaning`);
- header values, header annotations, case-variant keys and the validator of
  request metadata (`HeaderValue`, `Annotations`, `SchemaKeys`, `Envelope`,
  `EnvelopeMirror`, `EnvelopeMeaning`, `EnvelopeRendered`, `EnvelopeWitness`);
- edit distance (`EditDistance`), confirmation tokens (`ConfirmTokens`,
  `ConfirmRuns`, `ConfirmMeaning`) and the budget ledger (`BudgetLedger`, `BudgetRuns`,
  `BudgetMeaning`).

`Common`, `Text`, `TextOrder`, `JsonText`, `JsonMerge`, `JsonWriting` and `Dict` hold the shared
vocabulary: Python text as code points, UTF-8, base64, the text json.dumps prints, and dicts.

Objects that the source updates in place are classes with the same fields; each
of their methods is proved equal to a function on values (`OpenOn`, `MintOn`,
`ResolveOn`, `Startup`, `HandleOn`, `RequestOn`, ...). The modules named `...Runs`
prove the properties of whole runs about those functions; the modules named
`...Meaning` say what the functions decide in terms of the input alone: its fields,
its counts and the source's numbers, without naming them. The source's loops are loops.

## Assumptions

Hash, MAC, authenticated decryption, `str.lower`, `str.casefold`, `json.loads` and
the digest of a call's arguments are function parameters. Where a theorem needs
something of one of them it says so in a `requires`: `CollisionFree` (the hash),
`DigestsBy` (the arguments digest is a collision-free hash of their canonical text),
`SeparatesKeys` (tags tell MAC keys apart), `SeparatesMessages` (and messages),
`HexMacs` (a MAC prints as ASCII), `LowersAscii` (lowering is letter by letter on
ASCII), `Faithful` (only JSON text loads). Random identifiers are inputs, fresh
where a theorem says so (`FreshHandles`, `FreshTokens`). Clock readings are inputs;
`ClockHolds` and `InClockOrder` say that they do not decrease in the order the lock
admits the calls. A call is one step: because it holds its lock throughout, or, in
`ResourceEngine.on_request`, which takes its lock three times, because nothing is
awaited in between.

## Findings

Where the code does something other than its documentation or its name suggests,
the model follows the code. One lemma exhibits the case, another says for all
inputs exactly when the expected property holds.

- A sealed token can be accepted twice when calls enter the lock out of clock
  order, since the reading is taken before the lock. Case: `ReplayRuns.RegressedReadingReplays`.
  Exactly when: `ReplayRuns.ReopenedExactlyWhen`, from `ReplayRuns.AcceptedExactlyWhen`.
- With the same regression the registry's sweep shows too: a handle can resolve again after
  an expiry that an earlier call had read. Case: `HandleClock.RegressionShows`. Exactly when:
  `HandleClock.AnswersAgreeExactlyWhen`.
- `admin_revoke` and `revoke_principal` read no clock, so they report expired handles
  that have not been swept. Case: `HandleRuns.StaleRevokeIsReported`. Exactly when:
  `HandleRuns.RevokeAnswersAgreeExactlyWhen`.
- A per-principal handle limit below the floor of 8 overrides the floor. Case:
  `HandleRuns.LowLimitRefuses`. Exactly when: `HandleRuns.FloorGuarantee`.
- An audit engine stopped between its first record and that record's anchor write, or
  a keyed engine stopped before its first record, refuses to restart. Cases:
  `AuditRuns.UnanchoredRecordRefused`, `AuditRuns.UnusedKeyedEngineRefused`. Exactly when:
  `AuditRuns.InterruptionRestartsExactlyWhen`.
- An `extra` that gives a record another number or another predecessor's hash makes the
  engine's own log unverifiable. Cases: `AuditWriter.OverridingExtraBreaksChain`. Exactly
  when: `AuditWriter.AppendExtendsExactlyWhen`, over runs `AuditRuns.SoundThroughoutExactlyWhen`.
  The repository's only caller with `extra` (mcp_armor/guard.py:461-471) sets neither
  field, so its runs are never affected (`AuditRuns.PlainStepsAreHonest`).
- The verifier promises its classified error on any violation, and the seed reader on any
  malformed line, but some lines raise another exception. Case: `AuditChain.NumberLineCrashes`.
  Exactly when: `AuditChain.CrashesExactlyWhen`, `AuditChain.SeedCrashesExactlyWhen`.
- docs/SECURITY.md:134-144 says to unset the previous MAC key once all old records have
  been verified again. Verifying does not sign them again, so from then on every verifying
  start refuses the log, whatever was appended under the new key, as it does after a second
  rotation. Case: `AuditRuns.UnsetPreviousRefused`. Exactly when: `AuditRuns.RestartsExactlyWhen`,
  and in terms of keys `AuditRuns.RotatedRunRestartsExactlyWhen`.
- An annotation whose header name has an underscore, or a final line feed (which `$`
  in the token pattern lets through), can never be used: `EnvelopeMirror.UnderscoreNameUnusable`,
  `EnvelopeRendered.LineFeedNameUnusable`, both for every request. Headers rendered from raw
  arguments are also refused when an annotation reaches through an argument given as JSON
  text to something only the decoding has. Case: `EnvelopeWitness.TextArgumentCase`.
  Exactly when: `EnvelopeRendered.RenderedAcceptedExactlyWhen`.
- The per-principal quota of pending confirmations can be passed when two users share a
  session. Case: `ConfirmRuns.SharedSessionPassesQuota`. Exactly when, for one call:
  `ConfirmRuns.PrincipalQuotaExactlyWhen`; over runs: `ConfirmRuns.QuotaPassedOnlyByReplacing`.
- `json.dumps` prints some different texts alike: a surrogate pair as one code point or as two.
  Case: `JsonText.SplitPairPrintsAlike`. Exactly when: `JsonMerge.PrintAlikeExactlyWhen`. The
  json module joins an escaped pair, but it decodes bytes with surrogates passed, so a body or
  a claim can hold a split one. A confirmation key then stands for both spellings: a token
  issued for one user lets the other through, and an approval covers both arguments. Cases:
  `ConfirmRuns.SplitUserConfirms`, `ConfirmRuns.SplitArgumentsPrintAlike`. Exactly when:
  `ConfirmTokens.KeyInjective`, `ConfirmMeaning.KeyCoversExactly`.

## Model

| member | source | states |
|---|---|---|
| EditDistance.Levenshtein | mcp_armor/engines/integrity.py:54-66 | the two-row loop with its argument swap returns the recursive distance |
| EditDistance.LevIsFewestEdits | mcp_armor/engines/integrity.py:54-66 | the distance is the least number of single-character insertions, deletions and substitutions that turn one string into the other |
| EditDistance.Symmetric | mcp_armor/engines/integrity.py:54-66 | the distance is symmetric, which is what makes the swap harmless |
| EditDistance.Triangle | mcp_armor/engines/integrity.py:54-66 | triangle inequality, for all three strings |
| EditDistance.ZeroExactlyOnEqual | mcp_armor/engines/integrity.py:54-66 | zero exactly between equal strings |
| EditDistance.Bounds | mcp_armor/engines/integrity.py:54-66 | between the length difference and the longer length |
| Quota.OwnerCountsExact | mcp_armor/explicit_state.py:66-71 | in a table of true counts an owner has an entry exactly when it holds something, and its entry is the number held |
| Quota.TenantCountsExact | mcp_armor/explicit_state.py:66-71 | the same for tenants |
| Quota.IncrementKeepsCounts | mcp_armor/explicit_state.py:325-326 | counting a new id turns the true owner and tenant tables into the true tables of what is held then |
| Quota.DecrementKeepsCounts | mcp_armor/explicit_state.py:66-71 | uncounting a dropped id does the same, so no zero entry stays behind |
| Quota.ExcessPick | mcp_armor/explicit_state.py:310-323 | the sum over owners of what they hold above the floor does not depend on the order they are taken in |
| Quota.AdmitKeepsFair | mcp_armor/explicit_state.py:310-323 | admitting one more by the soft-cap rule keeps the floor law: globally and inside every tenant the excess above the floor sums to at most the cap, and totals are at most twice the cap |
| Quota.DropKeepsFair | mcp_armor/explicit_state.py:302-307 | so does dropping any ids |
| HeapQueue.PushHeap | mcp_armor/explicit_state.py:327 | heapq.heappush keeps a heap and adds exactly its item |
| HeapQueue.PopHeap | mcp_armor/explicit_state.py:302-303 | heapq.heappop keeps a heap and removes exactly the root |
| HeapQueue.RootLeast | mcp_armor/explicit_state.py:302 | the root of a heap is least |
| ReplayCache.RequestStateSealer.PurgeSpent | mcp_armor/explicit_state.py:301-307 | the purge loop leaves exactly the redemptions that have not expired, and map, heap and both count tables still agree |
| ReplayCache.RequestStateSealer.PopSpent | mcp_armor/explicit_state.py:302-307 | one turn removes exactly the id at the root from all four structures |
| ReplayCache.RequestStateSealer.Record | mcp_armor/explicit_state.py:324-327 | recording adds the id to all four structures |
| ReplayCache.RequestStateSealer.Open | mcp_armor/explicit_state.py:249-329 | an open call answers and changes the redemptions on record as `OpenOn` says: all checks, the purge, the replay test and the admission rule over the true counts; and it keeps the representation invariant |
| ReplayCache.PopInStep | mcp_armor/explicit_state.py:302-307 | popping the root keeps: the heap is a heap, its ids are the keys of the map once each, the tables are the true counts |
| ReplayCache.PushInStep | mcp_armor/explicit_state.py:324-327 | pushing a new id keeps the same |
| ReplayCache.RootDecides | mcp_armor/explicit_state.py:302 | once the root has not expired, no recorded id has |
| ReplayRuns.AcceptanceBinds | mcp_armor/explicit_state.py:273-300 | a call gets as far as the replay cache exactly when its token has at most 65536 characters and seals, unexpired, the principal, tenant and request it is presented with, a non-empty id and a payload; acceptance returns that payload |
| ReplayRuns.ReusableExactlyWhen | mcp_armor/explicit_state.py:273-329 | a sealer whose tokens may be used again accepts exactly on those checks but for the id, and records nothing |
| ReplayRuns.NothingExpiredAfterPurge | mcp_armor/explicit_state.py:301-307 | after a call that purges, no recorded id has expired at its reading |
| ReplayRuns.SingleUse | mcp_armor/explicit_state.py:273-327 | with readings that do not decrease in lock order no token is accepted twice in any run, purged or not |
| ReplayRuns.SecondAcceptanceNeedsClockRegression | mcp_armor/explicit_state.py:273-327 | whatever the clock does, a second acceptance needs a purge at or after the expiry and then a reading before it |
| ReplayRuns.AcceptedExactlyWhen | mcp_armor/explicit_state.py:273-327 | every call of every run is accepted exactly when it passes those checks, no redemption that still stands (accepted earlier, neither purged in between nor expired at this reading) has its id, and, counting the calls of the run whose redemptions stand: below 8 of its own its tenant has fewer than 500,000 and all have fewer than 2,000,000, from 8 on it has fewer than 10,000, its tenant fewer than 250,000 and all fewer than 1,000,000 |
| ReplayRuns.CountsOfTheRun | mcp_armor/explicit_state.py:310-327 | the three counts the caps are compared with are the numbers of calls of the run whose redemptions stand: in all, of the caller, of its tenant |
| ReplayRuns.OnRecordExactlyWhen | mcp_armor/explicit_state.py:301-327 | the ids on record, told by the run alone: those redeemed by a call since which no purge reached the expiry |
| ReplayRuns.RoomAtFirst | mcp_armor/explicit_state.py:313-323 | the first eight calls of a run never lack room |
| ReplayRuns.ReopenedExactlyWhen | mcp_armor/explicit_state.py:273-327 | a redeemed token presented again, its id not redeemed in between, is accepted exactly when some purge in between read the clock at or after its expiry, this call reads it before, and those counts leave room |
| ReplayRuns.RegressedReadingReplays | mcp_armor/explicit_state.py:273-327 | three calls whose readings regress and that accept one token twice |
| ReplayRuns.StaysOnRecord | mcp_armor/explicit_state.py:301-327 | a redeemed id stays on record with its own owner and expiry until some purge reads the clock at or after that |
| ReplayRuns.FloorGuarantee | mcp_armor/explicit_state.py:310-323 | an owner with fewer than 8 is refused exactly at 500,000 of its tenant or 2,000,000 in all |
| ReplayRuns.AlwaysFair | mcp_armor/explicit_state.py:310-327 | the floor law holds in every reachable cache, with the caps 1,000,000 and 250,000 |
| ReplayRuns.OwnerCapHolds | mcp_armor/explicit_state.py:313-316 | no owner ever holds more than 10,000 |
| Handles.HandleRegistry.Drop | mcp_armor/explicit_state.py:389-394 | removes one record from the map and both count tables, and returns it |
| Handles.HandleRegistry.Purge | mcp_armor/explicit_state.py:396-402 | does nothing before the next sweep is due unless forced; else leaves exactly the unexpired records and sets the next sweep one second on |
| Handles.HandleRegistry.Mint | mcp_armor/explicit_state.py:418-452 | validity checks, the three limits in order with their forced sweeps, the record and both counts, as `MintOn` says |
| Handles.HandleRegistry.TotalLimit | mcp_armor/explicit_state.py:425-433 | the total limit is judged on the true counts after its sweeps |
| Handles.HandleRegistry.PrincipalLimit | mcp_armor/explicit_state.py:434-437 | the per-principal limit likewise |
| Handles.HandleRegistry.TenantLimit | mcp_armor/explicit_state.py:438-444 | the per-tenant limit likewise |
| Handles.HandleRegistry.Resolve | mcp_armor/explicit_state.py:454-472 | a record only for its own principal, tenant and kind before its expiry; an expired one is dropped |
| Handles.HandleRegistry.Revoke | mcp_armor/explicit_state.py:474-479 | refuses exactly who could not resolve the handle, and else drops it |
| Handles.HandleRegistry.AdminRevoke | mcp_armor/explicit_state.py:481-488 | drops the handle and says whether it was there |
| Handles.HandleRegistry.RevokePrincipal | mcp_armor/explicit_state.py:490-498 | drops and returns exactly the matching records, each once |
| Handles.HandleRegistry.ListForPrincipal | mcp_armor/explicit_state.py:500-507 | sweeps, and lists exactly the matching unexpired records, each once |
| HandleRuns.SweepUnobservable | mcp_armor/explicit_state.py:396-507 | in every run every mint, resolve and list answer, including which limit a refused mint reports, is that of a registry that sweeps all expired handles at every reading |
| HandleClock.AnswersAgreeExactlyWhen | mcp_armor/explicit_state.py:396-507 | whatever the clock does, the first n answers are those under a sweep at every reading exactly when each is the same with and without the records an earlier reading had seen expired |
| HandleClock.FirstDifferenceExactlyWhen | mcp_armor/explicit_state.py:396-507 | the first answer that differs is the first for which those records matter |
| HandleClock.ResolveSilentExactlyWhen | mcp_armor/explicit_state.py:454-472 | for a resolve: when it would find such a record |
| HandleClock.ListSilentExactlyWhen | mcp_armor/explicit_state.py:500-507 | for a list: when such a record is among those it gives |
| HandleClock.RegressionShows | mcp_armor/explicit_state.py:454-472 | a run in which it does |
| HandleRuns.StepSimulated | mcp_armor/explicit_state.py:396-507 | one operation keeps the reference registry equal to the live part of the amortised one |
| HandleRuns.MintSimulated | mcp_armor/explicit_state.py:418-452 | mint with its three conditional sweeps decides as plain checks over the live records do |
| HandleRuns.RevokeAnswersAgreeExactlyWhen | mcp_armor/explicit_state.py:481-498 | a revocation answers as the reference does exactly when no expired handle it asks for is waiting to be swept |
| HandleRuns.StaleRevokeIsReported | mcp_armor/explicit_state.py:481-488 | a run in which an expired handle is reported as revoked |
| HandleRuns.AlwaysFair | mcp_armor/explicit_state.py:425-451 | the floor law holds of the records in every reachable registry |
| HandleRuns.FloorGuarantee | mcp_armor/explicit_state.py:425-444 | a well-formed mint by a caller with fewer than 8 fails exactly at a 2x ceiling or at a per-principal limit below 8 |
| HandleRuns.LimitOverridesFloor | mcp_armor/explicit_state.py:434-437 | with room for one handle per principal, a caller holding one unexpired handle is refused the next, far below the floor |
| HandleRuns.LowLimitRefuses | mcp_armor/explicit_state.py:434-437 | a run in which that happens |
| HandleRuns.HandleLifetime | mcp_armor/explicit_state.py:418-498 | in every run a handle that was minted for a request resolves exactly for that principal, tenant and kind (or any), before the reading of the mint plus the ttl, and unless it or its principal was revoked in between; and then to the record with these six fields |
| HandleRuns.ListedExactlyWhen | mcp_armor/explicit_state.py:500-507 | and a list names it, with these six fields, exactly for that principal, within that tenant or any, under the same conditions |
| HandleRuns.ListedWereMinted | mcp_armor/explicit_state.py:500-507 | a list names nothing but records of mints of the run |
| HandleRuns.MintExactlyWhen | mcp_armor/explicit_state.py:418-452 | what a mint answers, as a decision over the request and the numbers of unexpired handles: in all, of the caller, of its tenant |
| HandleRuns.LingersUnderASecond | mcp_armor/explicit_state.py:396-402 | after a well-formed mint whatever is still held expired less than a second before, if at all |
| HandleRuns.MintAdds | mcp_armor/explicit_state.py:396-452 | before the next sweep is due and below the stored limits a mint drops nothing and files the record with these six fields |
| HandleRuns.RevokePrincipalExactly | mcp_armor/explicit_state.py:490-498 | after revoking a principal its handles answer nobody and every other handle answers everyone as before |
| HandleRuns.OnlyMintedAreHeld | mcp_armor/explicit_state.py:445-451 | only handles minted in the run are ever held |
| AuditChain.VerifyChain | mcp_armor/engines/audit.py:129-246 | the verifier loop with its anchor rules returns what `JudgeLog` unfolds, error class included |
| AuditChain.VerifierIsItsSpecification | mcp_armor/engines/audit.py:129-246 | it returns normally exactly when every line parses, every record has its number, its predecessor's hash, its own hash and a tag under the current or previous key, and the anchor rules hold; and then with the record count and the last hash |
| AuditChain.SeedState | mcp_armor/engines/audit.py:102-126 | the seed reader's loop |
| AuditChain.SeedAgreesOnAccepted | mcp_armor/engines/audit.py:102-126 | on every accepted log the seed reader finds the verifier's count and head |
| AuditChain.CrashesExactlyWhen | mcp_armor/engines/audit.py:129-297 | the verifier raises an unclassified exception exactly when the first line that does not pass is no object or is a linked record whose stored tag, under a key, is not ASCII text; or when all lines pass and the sidecar cannot be indexed or has such a tag |
| AuditChain.SeedCrashesExactlyWhen | mcp_armor/engines/audit.py:102-126 | the seed reader does exactly when the first line that gives no chain hash is no object |
| AuditChain.NumberLineCrashes | mcp_armor/engines/audit.py:102-246 | a line holding a number makes both raise one |
| AuditChain.HashFixesBody | mcp_armor/engines/audit.py:24-46 | with a collision-free hash, equal chain hashes mean equal record bodies |
| AuditChain.HistoryCommitment | mcp_armor/engines/audit.py:157-246 | two chains with the same hash at some length have equal bodies at every earlier position, under whatever keys |
| AuditChain.AnchorPinsLog | mcp_armor/engines/audit.py:226-246 | an accepted log as long as its anchor counts is, body for body, the log the anchor was taken from |
| AuditMeaning.IntactExactlyWhen | mcp_armor/engines/audit.py:129-246 | the verifier accepts exactly when every line that is not blank parses, each record is an object numbered by its position, names the chain hash before it (64 zeros at first), carries the hash of the canonical text of its other fields and a tag of that text under the current or previous key, and the sidecar is missing beside an empty log or is tagged for its own count and head, counts no more than the log and at the full length names its head |
| AuditMeaning.FieldsCommitted | mcp_armor/engines/audit.py:157-246 | two chains that agree on the chain hash of a record agree on every field of every record up to it, but for the hash and tag themselves |
| AuditMeaning.AnchorTextInjective | mcp_armor/engines/audit.py:61-72 | the signed text of an anchor determines its count and its head |
| AuditMeaning.TagBindsAnchor | mcp_armor/engines/audit.py:61-72 | if tags tell messages apart, an accepted sidecar whose tag was made for a count and a head has that count and head, and the log is at least as long |
| AuditMeaning.TruncationRefused | mcp_armor/engines/audit.py:226-246 | so no log with fewer records than its tag was made for is accepted, whatever count and head are put beside the tag |
| AuditMeaning.TruncatedRunRefused | mcp_armor/engines/audit.py:226-246 | so in every honest run, once an anchor made under a key has landed |
| AuditWriter.AuditEngine.OnStartup | mcp_armor/engines/audit.py:390-492 | startup refuses without a required key, and else refuses, verifies and re-anchors, or seeds, as `Startup` says; a refusal leaves number and previous hash alone |
| AuditWriter.AuditEngine.Write | mcp_armor/engines/audit.py:534-574 | the record is numbered, linked, hashed and tagged, and memory moves to it |
| AuditWriter.AuditEngine.Append | mcp_armor/engines/audit.py:576-606 | the record is added to the log and its anchor written |
| AuditWriter.SealKeepsBody | mcp_armor/engines/audit.py:24-46 | adding hash and tag changes nothing that is hashed |
| AuditWriter.AppendExtendsExactlyWhen | mcp_armor/engines/audit.py:534-574 | for every metadata and extra, a record written at the end of a chain makes a longer chain exactly when whatever extra says last of the number equals it and of the previous hash is it |
| AuditWriter.OverridingExtraBreaksChain | mcp_armor/engines/audit.py:564-565 | an extra number passes only if it is the record's own, an extra previous hash only if it is the head |
| AuditMeaning.WrittenRecord | mcp_armor/engines/audit.py:551-574 | a written record holds, under every name, what extra last gives for it, else its number and link, else what the caller gives; its hash and tag are those of the canonical text of all the rest |
| AuditMeaning.SeedSucceedsExactlyWhen | mcp_armor/engines/audit.py:102-126 | the seed reader succeeds exactly when every line is blank or an object with a chain hash; it counts the objects and gives the hash of the last |
| AuditMeaning.VerifyingStartExactlyWhen | mcp_armor/engines/audit.py:390-453 | for every disk: a verifying start succeeds exactly with no log, no sidecar and no marker, or with a log that is linked and anchored as above and a key if there is a marker |
| AuditMeaning.StartLeaves | mcp_armor/engines/audit.py:390-492 | what a start leaves: the log as it was, the marker with a key, memory at the end of the log, and for a verified log a new anchor there |
| AuditRuns.AlwaysSound | mcp_armor/engines/audit.py:494-606 | from any sound system, under every interleaving of appends, anchor writes landing late in any order, interruptions and restarts under any keys, the log is a chain, each record signed by the engine that wrote it, memory is its tail, and the anchor and every anchor still to land name a real prefix |
| AuditRuns.SoundThroughoutExactlyWhen | mcp_armor/engines/audit.py:494-606 | all of that lasts throughout a run exactly when no appended record overrides its number or link with something else |
| AuditRuns.PlainStepsAreHonest | mcp_armor/guard.py:461-471 | runs of the repository's own callers are such runs |
| AuditRuns.StartKeepsSound | mcp_armor/engines/audit.py:390-453 | a restart under whatever keys keeps all that, and a verified log is re-anchored at its tail under the current key |
| AuditRuns.StartsExactlyWhen | mcp_armor/engines/audit.py:390-453 | a verifying start under a pair of keys succeeds exactly when nothing has been set up, or the log is anchored, a key is there if there ever was one, and the pair expects the anchor's tag and every record's own |
| AuditRuns.RestartsExactlyWhen | mcp_armor/engines/audit.py:390-453 | so for every interruption point of every honest run, whatever keys its starts brought |
| AuditRuns.InterruptionRestartsExactlyWhen | mcp_armor/engines/audit.py:390-453 | under one pair of keys throughout: exactly when an anchor has landed or nothing has been set up |
| AuditRuns.UnanchoredRecordRefused | mcp_armor/engines/audit.py:226-233 | the refusal this leaves between the first record and its anchor |
| AuditRuns.UnusedKeyedEngineRefused | mcp_armor/engines/audit.py:390-453 | the refusal of a keyed engine stopped before its first record |
| AuditRuns.RotatedRunRestartsExactlyWhen | mcp_armor/engines/audit.py:192-217 | if tags tell keys apart, an anchored log of a run with any rotations restarts under a pair of keys exactly when each record's signer and the anchor's is one of the two |
| AuditRuns.RotationKeepsRestarting | mcp_armor/engines/audit.py:390-492 | after one rotation every later state of every honest run that starts under the new key or the old restarts under the pair |
| AuditRuns.RekeyedExactlyWhen | mcp_armor/engines/audit.py:192-217 | a log whose records were signed under whatever keys is a chain under a pair of keys exactly when the pair expects each record's own tag |
| AuditRuns.LostKeyRefused | mcp_armor/engines/audit.py:192-217 | while one record's tag is not one the pair expects, no verifying start succeeds, however the run goes on |
| AuditRuns.UnsetPreviousRefused | docs/SECURITY.md:134-144 | a run: written under one key, restarted with it as previous key, appended to and restarted at will, and refused once it is unset or rotated out |
| JsonText.DumpsReading | mcp_armor/engines/authz.py:388-419 | the printed text of a JSON value is self-delimiting: value and remainder can be read back |
| JsonText.DumpsInjective | mcp_armor/engines/audit.py:24-46 | equal canonical texts have equal values |
| JsonText.QuotedReading | mcp_armor/engines/authz.py:388-419 | a printed string is self-delimiting, escapes and surrogates included |
| JsonText.SplitPairPrintsAlike | mcp_armor/engines/audit.py:24-46 | a split surrogate pair prints like the code point it spells |
| JsonText.QuotedAlikeExactlyWhen | mcp_armor/engines/audit.py:24-46 | two texts print alike exactly when they have the same UTF-16 code units |
| JsonMerge.SameUnitsExactlyWhen | mcp_armor/engines/audit.py:24-46 | two texts have the same UTF-16 code units exactly when joining their split pairs makes them the same |
| JsonMerge.PrintAlikeExactlyWhen | mcp_armor/engines/authz.py:403-409 | two values print alike exactly when joining their split surrogate pairs makes them the same |
| JsonMerge.ReadingUpToMerge | mcp_armor/engines/authz.py:411-419 | a printed value and what follows can be read back from a text, up to that |
| JsonWriting.CanonicalText | mcp_armor/engines/audit.py:24-46 | the canonical text of a value is a writing of that value by the JSON grammar, without whitespace; read back, its string literals spell the code units of its texts |
| JsonWriting.CanonicalDepth | mcp_armor/types.py:346-366 | so the bracket scanner reads off it how deep the value nests |
| BracketDepth.ScanDepth | mcp_armor/types.py:346-366 | the scanner's loop |
| BracketDepth.ScannerReadsNesting | mcp_armor/types.py:346-366 | for every JSON value, with any whitespace and any valid escapes, the scanner returns the nesting of its containers |
| BracketDepth.DecodedArguments | mcp_armor/types.py:301-340 | the decode loop: refused at the first string argument written too deep, and else the decoded arguments in order |
| BracketDepth.DecodedExactly | mcp_armor/types.py:301-340 | a pair is decoded exactly from a string argument that, stripped, starts with a bracket and loads as that dict or list |
| BracketDepth.RefusedExactlyWhen | mcp_armor/types.py:317-329 | the gate refuses exactly when some string argument that starts with a bracket is written more than 64 deep |
| BracketDepth.DeepTextRefused | mcp_armor/types.py:321-329 | an argument text that spells a value nested deeper than 64 never passes the gate |
| BracketDepth.DecodedWithinLimit | mcp_armor/types.py:301-340 | what passes the gate nests within the limit |
| JsonDepth.DepthByStack | mcp_armor/engines/resources.py:20-40 | the explicit-stack walk returns the recursive depth |
| JsonDepth.DepthAndNesting | mcp_armor/engines/resources.py:20-40 | that depth is the container nesting, or one less |
| JsonDepth.DeeperExactlyWhen | mcp_armor/engines/resources.py:20-40 | the depth exceeds a bound exactly when some chain of values, each an item or value of the one before, does |
| FreshKeys.NoEntryLost | mcp_armor/types.py:156-181 | one output entry for each input pair, in order, with its own value, under distinct keys, for any key texts including ones that look renamed |
| FreshKeys.FirstFree | mcp_armor/types.py:177-179 | the first free renaming exists and is found within as many tries as there are keys taken |
| FreshKeys.KeyKeptExactlyWhen | mcp_armor/types.py:176-179 | a key keeps its text exactly when no earlier entry has that key, else it is a numbered renaming within the pigeonhole bound; its text always starts the key |
| FreshKeys.RenamedExactly | mcp_armor/types.py:176-179 | a renamed key is its text, a NUL, the key type, a NUL and the least number above the last one its text got whose renaming is free |
| FreshKeys.AllKeptExactlyWhen | mcp_armor/types.py:176-179 | no key is renamed exactly when no two texts are equal |
| FreshKeys.PlaceAppends | mcp_armor/types.py:177-181 | the assignment never overwrites |
| ScanView.FreeKey | mcp_armor/types.py:176-179 | the renaming loop stops at that first free key, with the collision counter it leaves |
| ScanView.ViewMapping | mcp_armor/types.py:156-181 | the mapping loop with its shared budget builds the view and leaves the budget its specification says, or fails for the same reason |
| ScanView.ScanValue | mcp_armor/types.py:184-275 | so does the walk over values: depth limit, secrets, cycles |
| ScanView.ScanItems | mcp_armor/types.py:254-263 | and its loop over iterables |
| ScanView.Arguments | mcp_armor/types.py:278-298 | the view of a call's arguments, from the whole budget |
| ViewMeaning.ViewedExactlyWhen | mcp_armor/types.py:156-298 | arguments are viewed exactly when they unfold, cut only where an object would be entered while it is being read, to a tree of height 64 at most with 100,000 items and pairs at most; the view is that tree as plain data, and everything else is refused |
| ViewFacts.ArgumentsViewFits | mcp_armor/types.py:156-298 | a view has at most the budget's entries and nests at most 64 deep, however the arguments share objects |
| ViewFacts.ViewFits | mcp_armor/types.py:184-275 | every entry of a view is paid for once: its size and the budget left add up to at most the budget before |
| ViewFacts.NoTextHidden | mcp_armor/types.py:156-298 | whatever text can be read from the arguments, by any way through shared and cyclic objects, is in the view: as a value, or as a key that is an atom, behind secrets, enum members and other wrappers |
| ViewFacts.LeavesExactly | mcp_armor/types.py:156-298 | the text values of a view are exactly those that can be read, besides the cycle mark |
| ViewFacts.ShortestApart | mcp_armor/types.py:208-210 | a shortest way enters no object twice, which is why cutting cycles hides nothing |
| Text.Utf8RoundTrip | mcp_armor/mcp_protocol.py:105-127 | UTF-8 decoding inverts encoding |
| Text.Base64RoundTrip | mcp_armor/mcp_protocol.py:105-127 | base64 decoding (RFC 4648 section 4) inverts encoding |
| Text.IntTextIs | mcp_armor/mcp_protocol.py:156-172 | the text of an integer is its only decimal without leading zeros |
| Text.StripCuts | mcp_armor/request_envelope.py:136-149 | stripping cuts whitespace off both ends, and all of it |
| HeaderValue.RoundTrip | mcp_armor/mcp_protocol.py:105-127 | every text without a lone surrogate encodes, and decoding gives it back, also when it overlaps the sentinels |
| HeaderValue.EncodesExactlyEncodable | mcp_armor/mcp_protocol.py:105-119 | exactly the texts with a lone surrogate are refused |
| HeaderValue.Injective | mcp_armor/mcp_protocol.py:105-119 | encoding is injective |
| HeaderValue.EncodedIsFieldValue | mcp_armor/mcp_protocol.py:105-119 | an encoded value is tab and visible ASCII with no outer whitespace |
| HeaderValue.PlainExactlyWhen | mcp_armor/mcp_protocol.py:105-119 | a value that is tab and visible ASCII with no outer whitespace and not between the sentinels is carried as it is; any other is carried as base64 of its UTF-8 between `=?base64?` and `?=`, or refused for a lone surrogate |
| Annotations.XMcpHeaderAnnotations | mcp_armor/mcp_protocol.py:206-247 | the loop over the annotations the walk found |
| Annotations.WalkRootFinds | mcp_armor/mcp_protocol.py:217-232 | the walk finds exactly the annotations at the end of a chain of at most 17 properties mappings |
| Annotations.FoundInOrder | mcp_armor/mcp_protocol.py:217-232 | in a schema without repeated names annotations are found in the order they are written, each before those below it |
| Annotations.ValidExactly | mcp_armor/mcp_protocol.py:234-247 | an annotation is valid exactly when its name is a token (or a token and a line feed), its type is one of the three scalars or a list of one of them and nulls, and no earlier annotation has a token name that lowers to the same |
| Annotations.ValidDistinct | mcp_armor/mcp_protocol.py:234-247 | no two valid annotations share a header name in any case |
| Annotations.RenderInjective | mcp_armor/mcp_protocol.py:156-172 | the rendering of a boolean, an integer or a string determines it |
| SchemaKeys.DeclaredPropertyMappings | mcp_armor/mcp_protocol.py:253-275 | the schema walk finds every properties mapping, with multiplicity, unless there are more containers than the cap |
| SchemaKeys.MappingsAreDeclared | mcp_armor/mcp_protocol.py:253-275 | they are the key sets of what objects of the schema, at any depth, have as dict under `properties` |
| SchemaKeys.SchemaCaseVariantKeys | mcp_armor/mcp_protocol.py:278-330 | the walk over a value returns the sorted key paths of the recursive traversal |
| SchemaKeys.PathsExactly | mcp_armor/mcp_protocol.py:316-330 | the paths given are exactly those of the flagged keys: the keys and positions down to each, every one after a slash |
| SchemaKeys.ExactBindingAgrees | mcp_armor/mcp_protocol.py:278-330 | with an empty answer, a mapping that declares a name with the case fold of a key at any depth declares that very key |
| SchemaKeys.EmptyExactlyWhen | mcp_armor/mcp_protocol.py:278-330 | the answer is empty exactly when every key folds to nothing declared or is declared with the mappings in agreement |
| SchemaKeys.PassesExactlyWhen | mcp_armor/mcp_protocol.py:304-322 | the loop's test of one key, as a condition on declared spellings |
| SchemaKeys.FlaggedExactlyWhen | mcp_armor/mcp_protocol.py:304-322 | a key is flagged exactly when it folds to a declared name and either is not declared itself or some mapping declares one spelling of it and leaves out another |
| SchemaKeys.FlaggedThoughAgreeing | mcp_armor/mcp_protocol.py:285-294 | the documented caution, exactly: a key whose binding agrees is flagged exactly when some mapping declares one spelling of it without another |
| SchemaKeys.CautionFlags | mcp_armor/mcp_protocol.py:285-294 | a schema for which that happens |
| SchemaKeys.NoneFlaggedExactlyWhen | mcp_armor/mcp_protocol.py:278-330 | a value is clean exactly when each of its keys is |
| TextOrder.BeforeExactlyWhen | mcp_armor/mcp_protocol.py:330 | a text is before another exactly when it is the start of it or has the smaller code point where they first differ |
| TextOrder.SortSorts | mcp_armor/mcp_protocol.py:330 | sorted() sorts and keeps every path |
| TextOrder.SortedUnique | mcp_armor/mcp_protocol.py:330 | and there is only one such list |
| Envelope.HeaderMultimap | mcp_armor/request_envelope.py:112-149 | the header loop rejects an alias of a routing header and else collects all values of each name in order |
| Envelope.CollectHolds | mcp_armor/request_envelope.py:112-149 | a name is collected exactly when it was sent, with exactly its values |
| Envelope.ValidateParams | mcp_armor/request_envelope.py:279-346 | the parameter checks in the code's order |
| Envelope.ValidateRequestMetadata | mcp_armor/request_envelope.py:161-346 | the whole validator, its verdict included |
| EnvelopeMirror.AcceptedExactlyWhen | mcp_armor/request_envelope.py:161-346 | the validator with its order of checks accepts exactly when all of them pass together, each on its own |
| EnvelopeMeaning.RequestAcceptedExactlyWhen | mcp_armor/request_envelope.py:161-346 | a request of a version is accepted exactly when the version is supported, no header goes by another spelling of a routing name, version and method are each sent once as the body has them, the name header shows `params.name` for tools/call and prompts/get and `params.uri` for resources/read and is absent otherwise, and the parameter headers show the annotated arguments as the server runs them, each once, and no others, of arguments with no text written too deep and no key in doubt |
| EnvelopeMeaning.OnlyRequestsAccepted | mcp_armor/request_envelope.py:161-346 | nothing but an object with a text as method and a version in its `_meta` is accepted, and only as of that version |
| EnvelopeMeaning.AcceptedKeysBind | mcp_armor/request_envelope.py:310-316 | on every accepted call with a schema of at most 100,000 containers, for every key at any depth of the arguments, as sent or as decoded, each properties mapping that declares a name with its fold declares that key |
| EnvelopeMeaning.RefusedForKeysExactlyWhen | mcp_armor/request_envelope.py:279-316 | with everything before it in order a call is refused for a text written too deep exactly when there is one, and for its keys exactly when some key is in doubt, or, with a schema over the cap, when there are arguments at all |
| EnvelopeMeaning.FallbackExactlyWhen | mcp_armor/request_envelope.py:201-252 | the two refusals after which a legacy handler may take over are given exactly to a batch, or a request without a version, that is sent with no modern header and no version header but one of the four legacy versions |
| EnvelopeMeaning.MalformedExactlyWhen | mcp_armor/request_envelope.py:229-248 | an alias, a body without a method, any other body that is no request, and a malformed `_meta` are refused as just that |
| EnvelopeMeaning.UnsupportedExactlyWhen | mcp_armor/request_envelope.py:193-256 | a version is called unsupported exactly when body and header agree on an unsupported one, or a legacy-looking request is sent with one unknown version header |
| EnvelopeMeaning.MismatchExactlyWhen | mcp_armor/request_envelope.py:253-277 | the first of the three routing headers that does not show what the body says is the one named |
| EnvelopeMeaning.UnnamedExactlyWhen | mcp_armor/request_envelope.py:261-277 | a request whose name or uri is no text or has a lone surrogate is refused for that |
| EnvelopeMeaning.UnknownToolExactlyWhen | mcp_armor/request_envelope.py:287-289 | and a call of a tool without a schema for that |
| EnvelopeMeaning.AliasExactlyWhen | mcp_armor/request_envelope.py:136-149 | an alias is a routing name with underscores for dashes, or with `http-` before it |
| EnvelopeMeaning.ArgAtEnds | mcp_armor/request_envelope.py:151-158 | the argument at a path is the end of the trail of dicts that follows it |
| EnvelopeMirror.ParamAlias | mcp_armor/request_envelope.py:112-149 | a parameter header is taken for an alias exactly when its name has an underscore |
| EnvelopeMirror.UnderscoreNameUnusable | mcp_armor/request_envelope.py:112-149 | with its argument present, an annotation name with an underscore makes every request fail |
| EnvelopeRendered.ParamValues | mcp_armor/mcp_protocol.py:175-203 | each rendered parameter header carries its own argument's rendering, once |
| EnvelopeRendered.RenderedAcceptedExactlyWhen | mcp_armor/mcp_protocol.py:142-203 | the headers a client renders from a request are accepted exactly when each annotated argument is sent under a name without underscore and says the value the server runs, or is absent there |
| EnvelopeRendered.PlainRequestAccepted | mcp_armor/mcp_protocol.py:142-203 | so they are accepted whenever no annotation sees through a JSON text, no name has an underscore and each argument is absent or renderable |
| EnvelopeRendered.TextArgumentRefused | mcp_armor/request_envelope.py:279-346 | an annotation that reaches through an argument given as JSON text to something only the decoding has makes the client's own headers fail, for every such request |
| EnvelopeWitness.TextArgumentCase | mcp_armor/request_envelope.py:279-346 | a request for which that happens |
| EnvelopeRendered.LineFeedNameUnusable | mcp_armor/mcp_protocol.py:66 | a name with a final line feed can never be sent |
| ConfirmTokens.KeyInjective | mcp_armor/engines/authz.py:123-126 | for all bindings and tools, two keys are equal exactly when tool and, with split surrogate pairs joined, mode, session or user and tenant, and digest are |
| ConfirmTokens.SplitUsersShareKey | mcp_armor/engines/authz.py:411-419 | two user names that print alike have one key |
| ConfirmTokens.TokenStore.Issue | mcp_armor/engines/authz.py:128-164 | expired entries go, the quotas hold up new keys only, the entry is filed |
| ConfirmTokens.TokenStore.Consume | mcp_armor/engines/authz.py:166-188 | an unexpired entry with the same token is used up; an expired one is dropped |
| ConfirmTokens.AuthzEngine.OnRequest | mcp_armor/engines/authz.py:264-386 | the policy checks and the destructive gate, as `HandleOn` says |
| ConfirmRuns.AllowedIsConfirmed | mcp_armor/engines/authz.py:332-386 | a destructive call that is let through was confirmed at the gate |
| ConfirmRuns.ConfirmedWasIssued | mcp_armor/engines/authz.py:128-188 | in every run a destructive call gets through only with a token issued earlier, within its TTL, for the same mode, session or user and tenant, tool and arguments digest, up to joined surrogate pairs |
| ConfirmMeaning.KeyCoversExactly | mcp_armor/engines/authz.py:388-419 | with a collision-free hash, two calls at the gate have one key exactly when caller and tool are the same and the arguments are, field by field but for `_confirm_token`, the same up to joined surrogate pairs |
| ConfirmMeaning.KeyCoversEachName | mcp_armor/engines/authz.py:388-419 | for dicts whose names have no split pair: exactly when caller and tool are the same and, under every name but `_confirm_token`, both have no argument or the same one up to joined pairs |
| ConfirmMeaning.ConfirmedArguments | mcp_armor/engines/authz.py:398-409 | in every run a destructive call gets through only with a token issued earlier, within its TTL, to the same caller for the same tool and arguments, up to joined pairs |
| ConfirmMeaning.ConfirmedEachArgument | mcp_armor/engines/authz.py:398-409 | so under every name but the token's the call that gets through has the argument that was approved, and neither has a name the other lacks |
| ConfirmMeaning.AllowedExactlyWhen | mcp_armor/engines/authz.py:264-331 | no name is denied; an unlisted tool is denied or let through by the default; a listed tool needs every required scope, a user name if user-only, and the caller's own tenant as `tenant_id` if isolated, and that is enough unless it is destructive; only destructive calls touch the store |
| ConfirmMeaning.GatedExactlyWhen | mcp_armor/engines/authz.py:332-337 | a call reaches the destructive gate exactly when its tool is listed and destructive and its caller is so entitled and, if stateless, named |
| ConfirmMeaning.NamelessDenied | mcp_armor/engines/authz.py:411-417 | a stateless caller without a user name is denied at a destructive tool |
| ConfirmMeaning.PresentedExactly | mcp_armor/engines/authz.py:333-338 | which token a call presents: a text under `_confirm_token` unless empty, and none for an absent or false value |
| ConfirmMeaning.HeldUpExactlyWhen | mcp_armor/engines/authz.py:128-164 | without a token a call is held up with one exactly when its key is pending already or its owner, its principal and the store have room among the unexpired entries; the expired ones go and only its own is filed |
| ConfirmMeaning.TokenDecides | mcp_armor/engines/authz.py:166-188 | with a token it gets through exactly when that is the one pending under its key, not expired; used or expired the entry goes, and nothing else changes |
| ConfirmMeaning.OwnersShareExactlyWhen | mcp_armor/engines/authz.py:338-343 | two calls have one owner exactly when they have one session, or stateless one user and tenant, up to joined pairs |
| ConfirmMeaning.PrincipalsShareExactlyWhen | mcp_armor/engines/authz.py:344-346 | and one principal exactly when neither has a user name or they have one user and tenant |
| ConfirmRuns.SplitArgumentsPrintAlike | mcp_armor/engines/authz.py:403-409 | two arguments that differ only there print alike |
| ConfirmRuns.SplitUserConfirms | mcp_armor/engines/authz.py:388-419 | a run in which a token issued for one user lets another through |
| ConfirmRuns.TokenWorksOnce | mcp_armor/engines/authz.py:166-188 | no token lets two calls through |
| ConfirmRuns.StaysUsed | mcp_armor/engines/authz.py:166-188 | a token that was used is never pending again |
| ConfirmRuns.NextCallConfirmsExactlyWith | mcp_armor/engines/authz.py:128-188 | the next call at the gate with that binding and tool gets through exactly when it presents the token within the TTL |
| ConfirmRuns.Provenance | mcp_armor/engines/authz.py:128-164 | every pending entry was issued by a call of the run |
| ConfirmRuns.TotalQuota | mcp_armor/engines/authz.py:128-164 | the store never holds more than its maximum |
| ConfirmRuns.OwnerQuota | mcp_armor/engines/authz.py:128-164 | nor any owner more than its quota |
| ConfirmRuns.PrincipalQuotaExactlyWhen | mcp_armor/engines/authz.py:128-164 | issuing keeps the principal's quota exactly unless it replaces another principal's entry at the quota |
| ConfirmRuns.QuotaPassedOnlyByReplacing | mcp_armor/engines/authz.py:140-163 | in every run a principal passes its quota only after replacing, at the quota, another principal's unexpired entry |
| ConfirmRuns.SharedSessionPassesQuota | mcp_armor/engines/authz.py:140-163 | a run that does: two users in one session |
| BudgetLedger.ResourceEngine.RestoreBudget | mcp_armor/engines/resources.py:139-152 | a known session gets the ledger's budget and becomes the most recently used |
| BudgetLedger.ResourceEngine.SaveBudget | mcp_armor/engines/resources.py:154-161 | saving moves the session to the end and evicts the least recently used over the cap |
| BudgetLedger.ResourceEngine.OnSessionStart | mcp_armor/engines/resources.py:172-180 | restores and saves, and marks the session as live |
| BudgetLedger.ResourceEngine.DepthOfArguments | mcp_armor/engines/resources.py:210-224 | the depth of the arguments and of what their JSON texts decode to |
| BudgetLedger.ResourceEngine.OnRequest | mcp_armor/engines/resources.py:182-228 | a content-bearing call is judged on the ledger's budget, and counted when it passes |
| BudgetLedger.ResourceEngine.OnSessionEnd | mcp_armor/engines/resources.py:233-236 | forgets the session |
| BudgetLedger.ResourceEngine.ReapZombieSessions | mcp_armor/engines/resources.py:115-137 | forgets exactly the idle sessions as live, and no budget |
| BudgetRuns.EntryAccounts | mcp_armor/engines/resources.py:139-228 | from its creation to its loss an entry counts exactly the accepted calls, at most max_calls of them, and its wall-clock start and loop depth never change, whatever contexts come and whatever is reaped |
| BudgetMeaning.AnsweredExactly | mcp_armor/engines/resources.py:182-228 | as long as an entry lasts, each content-bearing call of its session is answered from the calls the creating context had used plus those accepted since, its wall-clock start and loop depth, in the order of the limits, and from the arguments: refused when a chain of values in them, or in what a top-level JSON text spells out one level further down, is longer than the limit, or such a text is written too deep |
| BudgetMeaning.AnsweredAtFirst | mcp_armor/engines/resources.py:182-228 | without an entry it is answered from the context it comes with; a call without content is not judged and changes nothing |
| BudgetMeaning.EntryThere | mcp_armor/engines/resources.py:154-236 | an entry is there after its session's start and after each accepted call, is gone when the session ends, and is not touched by reaping |
| BudgetRuns.LedgerWins | mcp_armor/engines/resources.py:139-152 | a call is judged on the ledger's budget, never on a rebuilt context's |
| BudgetRuns.LostOnlyByEndOrFullTurnover | mcp_armor/engines/resources.py:154-161 | an entry is lost only at the end of its session or after as many distinct other sessions as the cap were touched since its own last touch |
| BudgetRuns.BehindWereTouched | mcp_armor/engines/resources.py:139-161 | whoever is more recently used than an idle session was touched since its last touch |
| BudgetRuns.LastTouch | mcp_armor/engines/resources.py:139-161 | every entry was touched last by some event, and has been in the ledger since |
| BudgetRuns.LostWasOldest | mcp_armor/engines/resources.py:154-161 | an evicted entry was the least recently used of a full ledger |
| BudgetRuns.AlwaysWellFormed | mcp_armor/engines/resources.py:139-161 | order and budgets hold the same sessions, once each, within the cap |

## Left out

- The shared `spent_store` path of open, sealing, key ids and the splitting of a token's text: authenticated decryption is one function from tokens to claims.
- Handles.HandleRegistry.ListForPrincipal: the order of a listing is not stated, only which records and how often; the same for RevokePrincipal.
- Handles.HandleRegistry.Revoke: its two lock acquisitions are one step here, a resolve followed by an admin revoke. The run theorems have no operation for it; they have those two, with anything in between.
- ViewFacts.NoTextHidden: a key that is a tuple or another container is told as its printed text; what is inside that text is not followed.
- HandleClock.AnswersAgreeExactlyWhen: the registry that sweeps at every reading also sweeps at a mint or a resolve that is refused before the clock is read.
- The on_revoke callbacks of the registry and their failures, which do not change its records.
- Handle lifetimes and expiries are reals; floating-point rounding is not modelled.
- ConfirmTokens.AuthzEngine.OnRequest: a confirmation token that is not ASCII, which makes compare_digest raise, counts as denied; methods that carry no content pass through unmodelled; a float literal counts as true.
- Owner and principal labels are printed with compact separators instead of json.dumps' default ones.
- Envelope.HeaderMultimap: WSGI environments, byte-string headers and header pairs of the wrong shape; headers are pairs of texts.
- Envelope.ValidateRequestMetadata: the several `Mcp-Param-*` mismatch messages are one reason, and a duplicate is found by looking at each annotation instead of a dict of expected headers.
- EnvelopeRendered.RenderedAcceptedExactlyWhen: asks that every annotation name is a token, so a schema with a name that ends in a line feed is covered by LineFeedNameUnusable only.
- Base64 decoding is by groups of four as RFC 4648 section 4 has it; what the library does with malformed input beyond refusing it is not modelled.
- ScanView.ScanValue: which Python types are atoms, secrets, wrappers, mappings or iterables, and what attributes a model or dataclass has, are given by the object graph; only the walk over them is modelled. A lazy iterator and any type without a view are one refusal.
- AuditChain.SeedState: a chain_hash that is not text becomes empty text in memory.
- File-system failures, torn writes and asyncio scheduling: a record or an anchor is written whole or not at all, and anchors may land in any order.
- Typosquatting and homoglyph classification, tool manifest hashes, reconcile_meta, trust of claims, request fingerprints: straight-line or easy members.
- Pattern engines, JWT and DPoP checks, DNS, YAML and CLI code, logging, timing.
