# ForgeGrid: a verified model of its stores and protocols

ForgeGrid is a small build cluster: a coordinator that pairs workers and hands them jobs, and an
AgentBridge relay that passes messages between named agents. This project models the parts of it
that keep state, and proves what that state promises:

- **Two persistent stores** (`AgentStore`, `Coordinator`). Each save writes several files, each
  through a temp file and a rename (`AtomicFiles`). A save is told how many primitive disk
  operations take effect (`steps`), so every partial save, failed write and crash point is an input.
- **AgentBridge** (`AgentServer`). Requests are split at the store's lock, so a run is any
  interleaving of their critical sections, with crashes and restarts in between.
- **Authentication** (`Authentication`, `RateLimiter`): bearer credentials and the rate limiter,
  whose check and update are separate critical sections.
- **Bootstrap bundles** (`SignedPayload`, `Utf8`, `Bundle`): the length-prefixed signed payload,
  what JSON does to text, and generating and validating a bundle. `IdealPrimitives` shows that the
  laws assumed of the cryptographic primitives are consistent.
- **Replay protection** (`FileReplayStore`, `ReplayStore`): the file of reservations that the shipped
  tools share under a lock, with failing saves, checks and unlocks and with dying processes; and the
  in-memory store of the package's tests, which keeps stricter promises. Validation runs on either.
- **The coordinator** (`Coordinator`, `HandlerOutcomes`, `CoordinatorRuns`, `Pairing`, `JobSteps`,
  `TestJobs`, `Liveness`): its handlers and its sweep, what each promises its client, and over whole
  runs crash consistency, attempt binding, the life and budget of a pairing code, what a job's record
  says and what a test job's result proves, and who is shown as online.
- **The worker and its job attempts** (`Worker`, `Decimals`, `AttemptFence`, `JobAttempts`): polling,
  what an execution posts, and whom the coordinator's attempt fence lets through when a job has several
  executions and their updates may be lost, late, out of order or repeated.
- **The scheduler** (`Director`).

## How to read it

Code that changes state in the original is a class or a method here, and its contract gives the new
state as a function of the old one (`Added`, `Acted`, `Examined`, `PairEffect`, `Updated`, `Entered`, ...).
Runs are then sequences of events built from those same functions, and the main results quantify
over every such sequence (`Reachable` states, or any state a stated invariant holds of). What each
operation does is stated a second time without those functions, from the request and the records before
and after it, by the lemmas named `...Outcome`, `...Exactly` and `...ByField`. The
invariants that carry them are `AgentStore.Consistent`, `CoordinatorRuns.Inv`, `RateLimiter.Inv`,
`ReplayStore.Inv`, `FileReplayStore.BackedBut`, and `JobAttempts.Inv` and `JobAttempts.OneOutcomeEach`.

Assumptions, all of them explicit in the lemmas or types:

- A rename is atomic, a temp file is never loaded, and a published file reads back as it was written.
  The JSON encodings of the stores are taken to be lossless: their text is taken to come from decoded JSON
  and so is well-formed UTF-8; the replay file's IDs do too. A message result keeps its value, although
  re-indentation may change its white space.
- One process uses a data directory at a time; the replay file alone is shared, under its lock, which
  is exclusive and ends with its process.
- Clock readings and random draws are inputs. Random IDs and tokens are fresh where a lemma needs it
  (`Fresh`, `FreshIds`, `Distinct`); several readings in one handler are separate inputs.
- Nothing is assumed of the delivery of a worker's updates, which `AttemptFence` and `JobAttempts` let
  arrive in any order, any number of times or never. Both speak of one coordinator process: a restart
  that loses a binding is outside them, and `CoordinatorRuns.BindingSurvivesExactly` says when it can.
- Go strings are byte strings: `Bytes` where bytes matter, `string` (one character per byte) elsewhere.
- The hash of a token or challenge is a function parameter. Cryptographic primitives satisfy
  `Invertible`, `SignaturesExact`, `HashInjective` or `Unforged` only where a theorem says so.
- A bundle's JSON round trip returns its eight fields with every byte that is not part of well-formed
  UTF-8 replaced (`Utf8.Repaired`, defined and not assumed); so it returns them unchanged if and only
  if all eight are well-formed (`Utf8.UnchangedExactlyIfValid`).

Where the repository's documents and its code differ, the model follows the code:

- The documents say jobs are placed by RAM and CPU capability (`ARCHITECTURE.md:22`,
  `ACCEPTANCE_TESTS.md:16`); the scheduler looks only at a worker's status and operating system.
- A job whose worker disconnects is neither failed nor retried (`ACCEPTANCE_TESTS.md:20`).
- `expired` is a declared message status that nothing assigns; expiry exists only in the inbox filter.

Properties that one might expect and that do not hold, with the exact condition for each:

- Parsing a signed payload gives back its fields only if every length fits in 32 bits
  (`PayloadRoundTrip`, an equivalence; `LongFieldsCollide` is a collision).
- A generated bundle is accepted as other data than it was made from if that was not well-formed UTF-8,
  or not at all if its ID, agent or version was not (`RoundTrip`, an equivalence for all byte strings).
- With the shipped replay store an ID can have two holders: exactly if a reservation still held is 15
  minutes old when a reserve of it goes through (`OneHolderExactly`, `TakeoverHappens`), or, when the
  Windows build removes the file, if a holder that held the ID through the removal is still there when a
  reserve finds no entry (`OneHolderExactlyWithRemovals`, `LostEntryHappens`; `MissingEntryMeansRemoval`).
  The first holder's release then frees the second's reservation (`ReleaseFreesAnotherExactly`,
  `LateReleaseHappens`), and its commit does not stop the second's validation from being accepted
  (`AcceptedAfterCommitExactly`, `LateAcceptanceHappens`), although the second can no longer commit.
- With that store a failed validation leaves the entries as they were exactly if `LeavesNoTrace`: not if
  the reserve was saved but its check or unlock failed, nor if the ignored release failed, nor if a
  stale entry was taken over (`FailureUnchangedExactly`, `FailureLeavesStoreExactly`). A reservation of
  the empty ID makes the file unloadable for good (`UnloadableExactlyByEmptyId`, `UnloadableForever`).
- A consumed ID stays consumed exactly until the whole file is removed, which the Windows build does
  when its check of the file fails after the rename (`ConsumedExactlyUntilWiped`).
- An idempotent hit answers without saving, so an acknowledged message survives every future exactly
  if it is on disk (`SurvivesExactlyIfOnDisk`; `UnsavedAcknowledgementHappens` is a run that loses one).
- A pairing code can be used again after a crash exactly if memory or disk still holds it
  (`SpentExactlyWhenNowhereUsable`, `PairingSpendsTheCode`).
- Six failed pairing attempts are not the limit per code: using a code resets the count, so eleven can
  be evaluated. As long as restarts lose no configuration, the limit holds of every continuation exactly
  if no code is live and the tally has not outrun the failure count (`SixRefusalsExactly`,
  `PairingBudget`, `ElevenRefusalsHappen`). Restarts lose none if memory starts out saved and every
  pairing request and generation gets past the first rename (`SavedConfigNotLost`).
- Across arbitrary restarts some limit holds exactly if the limiter is closed in memory and on disk, and
  then nothing more is evaluated at all (`RefusalsLimitedExactly`, `CrashesLiftTheBudget`).
- An accepted first post binds a job for good exactly if the binding is on disk, since handlers ignore a
  failed save (`BindingSurvivesExactly`; `UnsavedBindingHappens` is a run that can lose one).
- Two attempts of one job are both heard exactly if the first thing that reaches it is not a first post
  and updates of two attempts arrive (`TwoHeardExactly`, `TwoHeardInRunExactly`). A lost first post is
  enough (`TwoHeardAfterLostPost`); if updates arrive in order it takes a cancel that comes before any of
  them (`TwoHeardInOrder`, `TwoHeardAfterCancel`).
- A finished job changes its status only by cancels exactly if no update arrives that the fence lets
  through and that says something else (`StandsExactly`); after the outcome of the attempt a job is bound
  to, exactly if no first post of that attempt arrives again (`OutcomeStandsExactly`). A late first post
  can set a finished job running (`LateFirstPostReopens`).
- A completed test job was verified exactly if its completing update carried a result, and the result
  "success" proves nothing (`CompletedExactly`, `SuccessExactly`, `UnverifiedSuccessHappens`).
- Cancelling a job never stops its execution: the coordinator lists pending jobs only, so no polling
  pass cancels one (`PendingListingsNeverCancel`, `NoDropNoCancel`); and a listed cancellation would
  reach only the execution whose entry is in the table (`CancelledExactly`).
- Registration accepts any agent name, but an agent whose name contains a colon, or a control character
  that no HTTP header can carry, can never authenticate (`WhoCanAuthenticate`, an equivalence).
- The limiter lets through more than ten failures by as many requests as run at once, and that bound
  is reached (`FailureBudget`, `BudgetIsReached`).

## Model

| member | source | states |
|---|---|---|
| AtomicFiles.WriteIsAtomic | internal/agentbridge/store.go:83-89 | a reader of the published path sees the old or the new value at every crash point, never a torn file |
| AtomicFiles.AtomicFile.Write | internal/agentbridge/store.go:83-89 | fill the temp file, rename, stop at the first failure; reports success only if the rename happened |
| AgentStore.SaveOrder | internal/agentbridge/store.go:62-81 | a save cut short anywhere leaves old files, new agents with old messages, or both new |
| AgentStore.SaveKeepsConsistency | internal/agentbridge/store.go:62-81 | simulation step: at every point of a save the disk is sound, below memory, and not behind the old disk |
| AgentStore.RestartKeepsConsistency | internal/agentbridge/store.go:45-60 | a restart on such a disk yields a sound store |
| AgentStore.TransitionEvolves | internal/agentbridge/store.go:149-171 | an action moves a record forward only, stamps the right time and result, and never touches a terminal record |
| AgentStore.AddKeeps | internal/agentbridge/store.go:110-127 | a send between registered agents keeps sender/key pairs unique and alters no stored message, in memory or on disk |
| AgentStore.ActKeeps | internal/agentbridge/store.go:136-179 | an action keeps the store consistent and loses or rolls back nothing, in memory or on disk |
| AgentStore.RegisterKeeps | internal/agentbridge/store.go:91-101 | registering or re-registering an agent keeps every message's parties registered, on disk too |
| AgentStore.RegistrationOutcome | internal/agentbridge/store.go:91-101 | one agent is added or replaced, nothing else moves, and a completed save is what a restart finds |
| AgentStore.SendOutcome | internal/agentbridge/store.go:110-127 | exactly the messages with a new ID and no earlier send of their key are stored, keyed or not; the answer is without error exactly if the save completed; any other send changes nothing |
| AgentStore.ActionOutcome | internal/agentbridge/store.go:136-179 | every known action of the recipient on an open message reaches memory as the right record, is answered with it exactly if the save completed, and is then on disk; the three refusals are exact and change nothing |
| AgentStore.Store.Load | internal/agentbridge/store.go:45-60 | reads both files, treats missing ones as empty, reports a torn one as corrupt |
| AgentStore.Store.Save | internal/agentbridge/store.go:62-81 | agents then messages, early return on the first failure |
| AgentStore.Store.RegisterAgent | internal/agentbridge/store.go:91-101 | refines the registration step and keeps the store's invariant at every crash point |
| AgentStore.Store.GetAgent | internal/agentbridge/store.go:103-108 | the registration, or nothing |
| AgentStore.Store.FindEarlier | internal/agentbridge/store.go:114-120 | the scan in arbitrary map order finds the one message with that sender and key, or none |
| AgentStore.Store.AddMessage | internal/agentbridge/store.go:110-127 | refines the idempotent insert, including the unsaved hit and the reply when a save fails |
| AgentStore.Store.TransitionMessage | internal/agentbridge/store.go:136-179 | refines the guarded transition; not found, forbidden and invalid action change nothing |
| AgentStore.Store.GetInbox | internal/agentbridge/store.go:181-194 | exactly the recipient's open messages unexpired at the reading taken for each, without repetition, in any map order |
| AgentServer.HandleMessages | internal/agentbridge/server.go:155-220 | the checks in order, the lifetime clamp and the insert; a refused request changes nothing |
| AgentServer.HandleMessageAction | internal/agentbridge/server.go:258-293 | a result counts only for complete and fail; which store error becomes which response |
| AgentServer.RequestAdmittedExactly | internal/agentbridge/server.go:155-200 | a request gets to the insert exactly if its sender is authenticated, its recipient registered, its lengths within limits and its kind known |
| AgentServer.SentMessageIsListedExactly | internal/agentbridge/server.go:183-220 | from send to inbox: the message carries what was asked for and is listed for its recipient only, exactly until its clamped lifetime is over |
| AgentServer.StoreStep | internal/agentbridge/server.go:120-294 | every critical section keeps memory and disk consistent and moving forward, although check and insert are separate |
| AgentServer.ApplyKeeps | internal/agentbridge/store.go:45-60 | the system invariant survives every event, with or without a crash during its save |
| AgentServer.RunKeeps | internal/agentbridge/store.go:62-179 | the invariant over every run from any consistent state, and that disk, and memory without a crash, only move forward |
| AgentServer.NothingSavedIsLost | internal/agentbridge/store.go:62-89 | durability of every reachable state: what a restart would find now is in every later memory and disk, at least as far along |
| AgentServer.RecordsOnlyMoveForward | internal/agentbridge/store.go:149-171 | without a crash a record's rank never drops, its identity never changes, a terminal record is frozen |
| AgentServer.ReferentialIntegrity | internal/agentbridge/store.go:62-80 | in every reachable state every message's parties are registered, in memory and at every crash point on disk, and the files load |
| AgentServer.LifecycleInvariant | internal/agentbridge/store.go:149-171 | completion time exactly in terminal states, acknowledged implies an acknowledgement time, results only in terminal states, never expired |
| AgentServer.TerminalRecordIsDurable | internal/agentbridge/store.go:173-178 | a terminal record returned without error is the record in every later state, across failed saves, crashes and reloads |
| AgentServer.FirstTerminalActionWins | internal/agentbridge/store.go:157-167 | every later action by the recipient gets that same record, or a failed save |
| AgentServer.OnlyTheRecipientChangesAMessage | internal/agentbridge/store.go:145-147 | a stored message changes only by a known action of its authenticated recipient while it is open |
| AgentServer.AtMostOneMessagePerKey | internal/agentbridge/store.go:114-120 | over any run a sender's non-empty key names at most one message, on disk too |
| AgentServer.ResendReturnsSameMessage | internal/agentbridge/store.go:114-120 | every later send with that sender and key returns the same ID and stores nothing; across restarts once on disk |
| AgentServer.SavedSendIsOnDisk | internal/agentbridge/store.go:122-126 | a first send whose save completed is on disk, with every other message untouched |
| AgentServer.SurvivesExactlyIfOnDisk | internal/agentbridge/store.go:114-126 | a message outlives every future if and only if it is on disk |
| AgentServer.HitSavesNothing | internal/agentbridge/store.go:114-120 | an idempotent hit changes neither memory nor what is on disk |
| AgentServer.UnsavedAcknowledgementHappens | internal/agentbridge/store.go:110-127 | a reachable state answers a resend without error although the message is not on disk and can be lost |
| AgentServer.ClosedMessagesStayOut | internal/agentbridge/store.go:186-192 | a message closed on disk or expired never returns to an inbox under a clock that does not go back |
| AgentServer.OpenMessagesStayListed | internal/agentbridge/store.go:186-192 | a saved message stays in its recipient's inbox through any run until someone completes or fails it or it expires |
| RateLimiter.Limiter.Admit | internal/agentbridge/server.go:58-69 | refines the first critical section: drop an expired lockout, refuse above ten failures and restart the lockout |
| RateLimiter.Limiter.Fail | internal/agentbridge/server.go:71-80 | refines the failure update with its table wipe |
| RateLimiter.Limiter.Succeed | internal/agentbridge/server.go:105-108 | refines the clearing of one address |
| RateLimiter.Limiter.CleanupTick | internal/agentbridge/server.go:32-50 | one tick removes exactly the addresses whose lockout is over, or wipes an oversized table |
| RateLimiter.RequestOutcome | internal/agentbridge/server.go:58-69 | which requests are refused, the minute of lockout a refusal starts, and what a finished lockout takes with it |
| RateLimiter.RejectOutcome | internal/agentbridge/server.go:71-80 | a failure counts one, or wipes a table past 20000; nobody else notices |
| RateLimiter.AcceptOutcome | internal/agentbridge/server.go:105-108 | a success clears both entries of its address and no other's |
| RateLimiter.TickOutcome | internal/agentbridge/server.go:32-50 | a cleanup leaves exactly the addresses whose lockout is not over, or nothing of a table past 10000 |
| RateLimiter.SuccessStartsAfresh | internal/agentbridge/server.go:58-108 | after a success with nothing else in flight ten failures in a row are each followed by an admitted request, and the eleventh by a refusal |
| Authentication.Authenticate | internal/agentbridge/server.go:52-111 | an uninterrupted authentication: refused without looking at credentials, or judged by the header and then cleared or penalized, for the address without its port |
| Authentication.LastIndex | internal/agentbridge/server.go:53-56 | the last colon, or none |
| Authentication.FirstIndex | internal/agentbridge/server.go:87-91 | the first colon, or none |
| Authentication.PortIsIgnored | internal/agentbridge/server.go:53-56 | every port of a host, IPv6 included, counts as one address |
| Authentication.NoPortIsHost | internal/agentbridge/server.go:53-56 | an address without a port is taken whole |
| Authentication.CredentialsExactly | internal/agentbridge/server.go:82-91 | what is read from a header is exactly what it carries before and after the first colon |
| Authentication.ProvenExactly | internal/agentbridge/server.go:82-103 | a header proves an agent if and only if it carries a registered name with a secret of its token hash |
| Authentication.CredentialsRoundTrip | internal/agentbridge/server.go:82-91 | a bearer header built from a colon-free name and any secret reads back as both |
| Authentication.WhoCanAuthenticate | internal/agentbridge/server.go:82-103 | some header that HTTP can carry proves an agent if and only if it is registered, its name has no colon and no control character but tabs, and its token hash has a secret that fits into a header |
| RateLimiter.TablesStayBounded | internal/agentbridge/server.go:35-48 | in every reachable state a locked-out address has more than ten failures and both tables hold at most 20000 entries |
| RateLimiter.StepKeepsBudget | internal/agentbridge/server.go:58-80 | failures plus requests in flight stay within ten plus the concurrency across any single event |
| RateLimiter.FailureBudget | internal/agentbridge/server.go:58-80 | the same over whole runs, through clears, cleanups and wipes |
| RateLimiter.FailuresNeverExceed | internal/agentbridge/server.go:58-80 | from an empty table the count never exceeds ten plus the concurrency, eleven if serial |
| RateLimiter.BudgetIsReached | internal/agentbridge/server.go:58-80 | the bound is sharp: some run with that concurrency reaches it |
| RateLimiter.LockoutLasts | internal/agentbridge/server.go:60-69 | for a minute nothing others do, no cleanup and no clock reading, lifts a lockout, wipes aside |
| RateLimiter.LockoutSlides | internal/agentbridge/server.go:60-69 | retries at most a minute apart are all refused, however many there are |
| RateLimiter.NextRequestAfterRefusal | internal/agentbridge/server.go:60-69 | the next request is admitted if and only if more than a minute has passed |
| SignedPayload.ConstructSignedPayload | internal/agentbridge/bootstrap.go:54-69 | the buffer holds the seven fields in order, each behind its 32-bit big-endian length |
| SignedPayload.HeaderRoundTrip | internal/agentbridge/bootstrap.go:57-58 | the four bytes read back as the length modulo 2^32 |
| SignedPayload.PayloadLayout | internal/agentbridge/bootstrap.go:54-69 | the order of the seven fields on the wire |
| SignedPayload.DecodeEncode | internal/agentbridge/bootstrap.go:54-69 | a decoder for n length-prefixed fields inverts the encoder |
| SignedPayload.PayloadRoundTrip | internal/agentbridge/bootstrap.go:54-69 | parsing a payload returns its fields if and only if every length is below 2^32 |
| SignedPayload.PayloadInjective | internal/agentbridge/bootstrap.go:54-69 | equal payloads of such fields have all seven fields equal |
| SignedPayload.LongFieldsCollide | internal/agentbridge/bootstrap.go:57 | without the bound, different fields can give equal payloads |
| SignedPayload.AssociatedDataInjective | internal/agentbridge/bootstrap.go:50-52 | schema versions without a bar make the associated data injective |
| SignedPayload.ConfusableExactlyWithBar | internal/agentbridge/bootstrap.go:50-52 | a schema version can be taken for a bar-free one if and only if it contains a bar |
| FileReplayStore.Store.Load | .agents/scripts/bootstrap-crypto/main.go:264-295 | a missing file is empty; an unreadable or torn one, an empty ID or a zero time stamp is an error |
| FileReplayStore.Store.Save | .agents/scripts/bootstrap-crypto/main.go:297-303 | replaces the file at the rename; a failed check afterwards reports an error and removes the file if it can |
| FileReplayStore.Store.Update | .agents/scripts/bootstrap-crypto/main.go:305-374 | lock, load, change, save, unlock: which file and which answer for every operation and every way it can fail |
| FileReplayStore.ReservableExactly | .agents/scripts/bootstrap-crypto/main.go:336-353 | a reserve is granted if and only if every step succeeds and the ID is absent or reserved for 15 minutes |
| FileReplayStore.LoadedExactly | .agents/scripts/bootstrap-crypto/main.go:264-295 | which files load, and as what |
| FileReplayStore.ReserveOutcome | .agents/scripts/bootstrap-crypto/main.go:336-353 | a saved reserve of an absent ID or of one reserved 15 minutes ago leaves a fresh reservation and every other entry |
| FileReplayStore.CommitOutcome | .agents/scripts/bootstrap-crypto/main.go:355-364 | a commit is reported exactly if nothing goes wrong and the ID is reserved, and marks it alone as consumed |
| FileReplayStore.ReleaseOutcome | .agents/scripts/bootstrap-crypto/main.go:366-374 | a release removes a reservation, keeps a consumed entry and every other ID |
| FileReplayStore.ReservedYetRefused | .agents/scripts/bootstrap-crypto/main.go:316-333 | when a reserve that was reported as failed leaves the ID reserved |
| FileReplayStore.ConsumedExactlyUntilWiped | .agents/scripts/bootstrap-crypto/main.go:355-374 | a consumed entry survives every operation but one that removes the file |
| FileReplayStore.OtherIdsUntouched | .agents/scripts/bootstrap-crypto/main.go:305-374 | an operation leaves the entries of other IDs alone |
| FileReplayStore.FailureUnchangedExactly | .agents/scripts/bootstrap-crypto/main.go:316-374 | which failed reserves, or reserves with their release, leave the entries as they were |
| FileReplayStore.UnloadableForever | .agents/scripts/bootstrap-crypto/main.go:283-286 | with an empty ID in the file every operation fails and changes nothing |
| FileReplayStore.UnloadableExactlyByEmptyId | .agents/scripts/bootstrap-crypto/main.go:336-353 | only a saved reserve of the empty ID makes a loadable file unloadable |
| FileReplayStore.ConsumedForever | .agents/scripts/bootstrap-crypto/main.go:336-374 | over any run of processes, failures and deaths without a removal of the file a consumed ID stays consumed |
| FileReplayStore.CommitsBounded | .agents/scripts/bootstrap-crypto/main.go:355-364 | over any run an ID is committed at most once, and once more per removal of the file |
| FileReplayStore.SecondHolderExactly | .agents/scripts/bootstrap-crypto/main.go:341-349 | one event makes a second holder if and only if it takes over a held reservation that is 15 minutes old, or finds no entry for an ID held since before the file was removed |
| FileReplayStore.OneHolderExactly | .agents/scripts/bootstrap-crypto/main.go:336-374 | over any interleaving without a removal of the file every ID has one holder throughout if and only if no such takeover happens |
| FileReplayStore.OneHolderExactlyWithRemovals | .agents/scripts/bootstrap-crypto/main.go:336-374 | from backed claims, removals included, one holder throughout if and only if no reserve goes through on a stale held reservation, nor on an entry-less ID held since before a removal |
| FileReplayStore.MissingEntryMeansRemoval | .agents/scripts/bootstrap-crypto/acl_windows.go:223-231 | while every ID has one holder, a held ID without an entry means that the file was removed |
| FileReplayStore.ReservationLasts | .agents/scripts/bootstrap-crypto/main.go:336-374 | for 15 minutes a sole holder stays the sole holder over any run of other processes, failures and deaths |
| FileReplayStore.TakeoverHappens | .agents/scripts/bootstrap-crypto/main.go:341-349 | a run that ends with two holders |
| FileReplayStore.LostEntryHappens | .agents/scripts/bootstrap-crypto/acl_windows.go:223-231 | a failed check removes the file, and a second process is granted an ID whose reservation was fresh |
| FileReplayStore.LateReleaseHappens | .agents/scripts/bootstrap-crypto/main.go:366-374 | the first holder releases, and a third is granted the ID while the second holds a fresh reservation |
| FileReplayStore.LateAcceptanceHappens | .agents/scripts/bootstrap-crypto/main.go:355-364 | the first holder commits, and the second is accepted all the same |
| FileReplayStore.ReleaseFreesAnotherExactly | .agents/scripts/bootstrap-crypto/main.go:366-374 | a release frees another holder if and only if there is one, the ID is reserved and the release is published |
| FileReplayStore.ReservableAfterReleaseExactly | internal/agentbridge/bootstrap.go:224-229 | after a release, ignored failures included, the ID is reservable if and only if it was published or the entry is stale |
| FileReplayStore.AcceptedAfterCommitExactly | .agents/scripts/bootstrap-crypto/main.go:355-364 | after a commit a validation can still be accepted if and only if one was already past its reservation |
| FileReplayStore.LateCommitFails | .agents/scripts/bootstrap-crypto/main.go:355-364 | such a validation can no longer commit, and its attempt changes nothing |
| ReplayStore.Store.Reserve | internal/agentbridge/bootstrap_test.go:34-45 | the in-memory store reserves exactly an ID that is neither reserved nor consumed |
| ReplayStore.Store.Commit | internal/agentbridge/bootstrap_test.go:47-59 | the in-memory store moves a reserved ID to consumed, or changes nothing |
| ReplayStore.Store.Release | internal/agentbridge/bootstrap_test.go:61-69 | the in-memory store frees an ID unless it is consumed |
| ReplayStore.ReservedExactlyWhatIsHeld | internal/agentbridge/bootstrap_test.go:34-69 | with the in-memory store, over any interleaving, the reserved set is exactly the IDs held by validators, one holder each, disjoint from the consumed ones |
| ReplayStore.OnlyTheHolderFrees | internal/agentbridge/bootstrap_test.go:34-69 | with the in-memory store no event but the holder's own frees a held ID; a validator refused at Reserve releases nothing |
| ReplayStore.CommitIsFinal | internal/agentbridge/bootstrap_test.go:47-59 | with the in-memory store no validation of an ID ever succeeds again after its commit |
| ReplayStore.FailureFreesTheId | internal/agentbridge/bootstrap_test.go:61-69 | with the in-memory store, whose release of a reserved ID cannot fail, a failed or abandoned validation leaves the ID reservable at once |
| ReplayStore.CommittedAtMostOnce | internal/agentbridge/bootstrap_test.go:47-59 | with the in-memory store an ID is committed at most once, and exactly once if it became consumed |
| ReplayStore.UninterruptedValidation | internal/agentbridge/bootstrap_test.go:34-69 | what an undisturbed validation does to the in-memory store |
| Bundle.GenerateSignedBootstrapBundle | internal/agentbridge/bootstrap.go:71-127 | the sealed bundle with the fingerprint of its signer and a signature over its seven fields |
| Bundle.DecryptBootstrapBundle | internal/agentbridge/bootstrap.go:129-180 | the decrypted data or the first fault in source order |
| Bundle.InspectContents | internal/agentbridge/bootstrap.go:236-275 | the first fault in source order; none exactly for complete data with matching version, ID and agent, a 64-digit fingerprint and a valid time window |
| Bundle.ValidateBootstrapBundle | internal/agentbridge/bootstrap.go:182-279 | on either replay store: the result or the first fault in source order, and what is left in the store, the deferred release and its ignored failure included |
| Bundle.FailureLeavesStoreExactly | internal/agentbridge/bootstrap.go:220-229 | which failures leave the store's entries as they were: all with the in-memory store; with the file those before the reservation and those that leave no trace |
| Bundle.AcceptedIsReserved | internal/agentbridge/bootstrap.go:220-229 | an accepted ID is refused to others, for 15 minutes in the file |
| Bundle.AcceptsExactly | internal/agentbridge/bootstrap.go:182-279 | the ordered checks accept if and only if signature, replay state, decryption, contents and time window are all in order |
| Bundle.RefusedForTheFirstFault | internal/agentbridge/bootstrap.go:182-279 | of 25 checks, each written out, a bundle is refused for the first it fails, and accepted as its contents exactly if it passes all |
| Bundle.GeneratedDecrypts | internal/agentbridge/bootstrap.go:129-180 | opening a generated bundle with the matching key returns its data as JSON returns it |
| Utf8.UnchangedExactlyIfValid | internal/agentbridge/bootstrap.go:72 | encoding and decoding a string returns it unchanged if and only if it is well-formed UTF-8 |
| Utf8.RuneIsRecognized | internal/agentbridge/bootstrap.go:72 | the encoding of every code point but the surrogates is recognized |
| Utf8.RecognizedIsRune | internal/agentbridge/bootstrap.go:72 | and nothing else is |
| Utf8.RepairedIsValid | internal/agentbridge/bootstrap.go:167-173 | every decoded string is well-formed |
| Bundle.PayloadFixesAgent | internal/agentbridge/bootstrap.go:215 | a bundle's payload determines the agent, whatever the lengths |
| Bundle.RoundTrip | internal/agentbridge/bootstrap.go:182-279 | for all data, a generated bundle is accepted as `bd` if and only if `bd` is its data as JSON returns it, agent and version match, the ID is granted and `bd` is acceptable; accepted unchanged if and only if all of it is well-formed |
| Bundle.SameFieldsSameContents | internal/agentbridge/bootstrap.go:215-231 | the signed fields determine the recipient, the agent and the decrypted data |
| Bundle.VerifiedBundleWasIssued | internal/agentbridge/bootstrap.go:197-244 | a bundle that passes the signature check and decrypts, hence every accepted one, carries the data, as JSON returns it, and exactly the agent, recipient and seven fields of one bundle the signer issued |
| Coordinator.Store.constructor | internal/store/store.go:19-47 | loads what can be read and keeps initial values for the rest |
| Coordinator.Store.Save | internal/store/store.go:49-73 | configuration, workers, jobs, with early return on the first failure |
| Coordinator.Store.HandleGenerateCode | internal/coordinator/handlers.go:63-76 | a fresh six-digit code, five minutes of life, failure count reset, then a save |
| Coordinator.Store.HandlePair | internal/coordinator/handlers.go:99-149 | the four outcomes in order; only a right code in time clears the code and adds the worker |
| Coordinator.Store.HandleHeartbeat | internal/coordinator/handlers.go:166-180 | refreshes exactly the authenticated worker |
| Coordinator.Store.HandleTestJob | internal/coordinator/handlers.go:203-223 | a pending job with its challenge, only on a known worker |
| Coordinator.Store.HandleListJobs | internal/coordinator/handlers.go:226-247 | an authenticated worker sees exactly its own pending jobs, each once |
| Coordinator.Store.HandleCancel | internal/coordinator/handlers.go:269-287 | cancels whatever the status was and stamps the end |
| Coordinator.UpdateJob | internal/coordinator/handlers.go:315-344 | the field-by-field update: binding, status, challenge check, logs, end time |
| Coordinator.Store.HandleUpdate | internal/coordinator/handlers.go:266-347 | not found, unauthorized and conflict change nothing; otherwise the update is applied and saved |
| Coordinator.Store.CheckWorkerStatus | internal/coordinator/coordinator.go:144-159 | takes offline exactly the online workers silent for more than 15 s, and saves only if there are any |
| HandlerOutcomes.SaveOutcome | internal/store/store.go:49-73 | which of the three files a save cut short has replaced |
| HandlerOutcomes.LoadOutcome | internal/store/store.go:19-47 | a restart takes each file for what it holds, and a missing or torn one for its initial value |
| HandlerOutcomes.GenerateOutcome | internal/coordinator/handlers.go:63-76 | a code of five minutes with a fresh count, saved |
| HandlerOutcomes.PairReplyExactly | internal/coordinator/handlers.go:94-117 | which of the four answers a pairing request gets |
| HandlerOutcomes.PairOutcomeByField | internal/coordinator/handlers.go:99-143 | a right request adds one worker with the node's whole description and spends the code; a wrong one counts; the others change nothing |
| HandlerOutcomes.HeartbeatOutcome | internal/coordinator/handlers.go:166-180 | a heartbeat with the worker's own token refreshes four fields of that worker; any other changes nothing |
| HandlerOutcomes.SweepOutcome | internal/coordinator/coordinator.go:144-159 | exactly the online workers silent for more than 15 s go offline, all else stays, and a save happens exactly if there are any |
| HandlerOutcomes.TestJobOutcome | internal/coordinator/handlers.go:203-223 | a pending unbound job with its challenge, on a known worker only |
| HandlerOutcomes.CancelOutcome | internal/coordinator/handlers.go:269-287 | a known job is cancelled whatever its status was, and nothing else changes |
| HandlerOutcomes.UpdateOutcomeExactly | internal/coordinator/handlers.go:289-347 | which updates are refused and why; only an accepted one changes anything, and only its job |
| JobSteps.UpdateOutcomeByField | internal/coordinator/handlers.go:310-344 | one update field by field, for every task and status |
| JobSteps.CancelOutcomeByField | internal/coordinator/handlers.go:281-284 | a cancel sets status and end time and leaves every other field |
| JobSteps.StatusIsTheLatest | internal/coordinator/handlers.go:310-344 | over any steps and for every task, the status is what the last effective step says, a wrong proof aside |
| JobSteps.ResultIsTheLatest | internal/coordinator/handlers.go:323-337 | over any steps, the result is the last one an effective update carried, the two proof cases aside |
| JobSteps.LogsAreAll | internal/coordinator/handlers.go:329-341 | over any steps, the logs are those of all effective updates in order, with the note on a wrong proof |
| Pairing.CodeSpellsTheDraw | internal/coordinator/handlers.go:40-46 | a code is the draw in six decimal digits, so each value below a million has its own code |
| Pairing.CodeWorksForItsLifetime | internal/coordinator/handlers.go:69-117 | from its generation on, through any run whose restarts lose no configuration, an unused code pairs exactly the named nodes that give it within five minutes, unless missed six times |
| CoordinatorRuns.SaveKeeps | internal/store/store.go:63-71 | at every point of a save the disk satisfies the cross-file invariants; relies on the order of the files |
| CoordinatorRuns.EffectKeepsMemory | internal/coordinator/handlers.go:63-348 | every handler and sweep keeps memory sound and never removes a worker |
| CoordinatorRuns.CrashConsistency | internal/store/store.go:49-73 | over any run with crashes, jobs name known workers, finished jobs have end times, workers plus live code never exceed codes generated |
| CoordinatorRuns.UpdateEvolves | internal/coordinator/handlers.go:310-344 | an update past the fence keeps a bound attempt and the log prefix, and a final status comes with an end time |
| CoordinatorRuns.AttemptBinding | internal/coordinator/handlers.go:310-344 | under loss, reordering, duplicates and any statuses a bound attempt ID and the log prefix never change; across crashes for what is on disk |
| CoordinatorRuns.LaterUpdatesCarryTheAttempt | internal/coordinator/handlers.go:310-313 | every later accepted update carries the bound attempt ID |
| CoordinatorRuns.BindingSurvivesExactly | internal/coordinator/handlers.go:310-347 | a bound attempt outlives every future if and only if the job is bound on disk |
| CoordinatorRuns.UnsavedBindingHappens | internal/coordinator/handlers.go:310-347 | a reachable state in which an accepted first post has bound a job that is unbound on disk |
| CoordinatorRuns.DiskNeverAhead | internal/store/store.go:49-73 | on disk every job is an earlier version of the one in memory, in every reachable state |
| TestJobs.CompletedExactly | internal/coordinator/handlers.go:310-344 | over any run of updates and cancels a test job ends completed if and only if the last one that took effect says "completed" with the right proof or without a result |
| TestJobs.SuccessExactly | internal/coordinator/handlers.go:310-344 | its result reads "success" if and only if the last result-bearing update proved the challenge or claimed success under another status |
| TestJobs.UnverifiedSuccessHappens | internal/coordinator/handlers.go:323-337 | two updates complete a job with result "success" that nobody ever verified |
| Pairing.PairingBudget | internal/coordinator/handlers.go:107-121 | over runs whose restarts lose no configuration: the failure count of a live code is exact, at most six refusals before and eleven in all, at most one success, lockout after six |
| Pairing.SavedConfigNotLost | internal/store/store.go:49-73 | restarts lose no configuration if it starts out saved and every pairing request and generation gets past the first rename |
| Pairing.SixRefusalsExactly | internal/coordinator/handlers.go:107-121 | every continuation before the next code whose restarts lose no configuration stays within six refusals if and only if no code is live and the tally has not outrun the failure count |
| Pairing.RefusalsLimitedExactly | internal/coordinator/handlers.go:107-121 | across arbitrary restarts some limit, and the limit n, holds of every continuation before the next code if and only if the limiter is closed in memory and on disk, and the tally is within n |
| Pairing.CrashesLiftTheBudget | internal/coordinator/handlers.go:107-121 | from a saved configuration with an open limiter any number of guesses is evaluated if a crash before the first rename follows each |
| Pairing.GenerationStartsBudget | internal/coordinator/handlers.go:69-73 | generating a code starts that budget from any state |
| Pairing.ElevenRefusalsHappen | internal/coordinator/handlers.go:107-121 | the bound of eleven is reached |
| Pairing.SpentExactlyWhenNowhereUsable | internal/coordinator/handlers.go:107-121 | from a time on, no pairing can succeed before the next code, through failed saves and restarts, if and only if neither memory nor disk holds a code usable then |
| Pairing.PairingSpendsTheCode | internal/coordinator/handlers.go:119-143 | a pairing spends its code in memory and on disk if and only if its save renamed the first file or the disk held no usable code |
| Pairing.PairedWorkerHasItsToken | internal/coordinator/handlers.go:119-148 | the new worker is online and accepts its own token only; other workers and all jobs are untouched |
| Liveness.OnlineFollowsSweeps | internal/coordinator/coordinator.go:144-159 | online workers were seen no earlier than 15 s before the latest sweep |
| Liveness.OnlineMeansRecent | internal/coordinator/coordinator.go:144-159 | within a period P of the latest sweep every online worker was seen at most 15 s + P ago |
| Liveness.ReportingWorkerStaysOnline | internal/coordinator/handlers.go:169-179 | a worker whose heartbeats come at most 15 s apart stays online, whenever the sweeps run and whatever else does |
| Director.FirstEligible | internal/director/director.go:34-40 | some eligible worker, or none exactly if there is none, in any map order |
| Director.PlaceTasks | internal/director/director.go:31-59 | one pending job per placed task on an eligible worker; stops at a task nobody can take |
| Director.SubmitManifest | internal/director/director.go:24-63 | succeeds if and only if every task has an eligible online worker; adds one job per task, keeps old jobs; a failure leaves earlier jobs unsaved |
| Director.AllPlaced | internal/director/director.go:31-59 | placing every task adds exactly as many jobs as there are tasks, all dispatchable |
| Director.PlaceableExactly | internal/director/director.go:34-40 | a task can be placed exactly if an online worker has the operating system it asks for, if any |
| Director.PlacedTask | internal/director/director.go:46-55 | the job of a placed task carries the manifest's profile, arguments, environment and timeout, pending and unbound |
| Worker.Worker.CancelJob | internal/worker/worker.go:345-352 | cancels the context of the job's entry and drops the entry |
| Worker.Worker.PollJobs | internal/worker/worker.go:328-342 | the pass over a listing, job by job, while executions change the table in between |
| Worker.LaunchedExactly | internal/worker/worker.go:328-342 | the launched jobs are, in order and once each, exactly the pending entries whose job has no entry in the table when looked at |
| Worker.ListedCancellation | internal/worker/worker.go:329-330 | a listed cancellation removes the entry and cancels its context; other entries leave the table alone |
| Worker.ChangeOutcome | internal/worker/worker.go:345-392 | what entering, leaving and cancelling do to every entry and context |
| Worker.PendingListingsNeverCancel | internal/worker/worker.go:328-342 | on listings of pending jobs a pass leaves the table to the executions and launches exactly the jobs without an entry when looked at |
| Worker.CancelledExactly | internal/worker/worker.go:345-352 | an execution under way is cancelled if and only if a listed cancellation finds its own entry |
| Worker.NoDropNoCancel | internal/worker/worker.go:371-392 | so without listed cancellations no execution is ever cancelled |
| Worker.Worker.ExecuteJob | internal/worker/worker.go:371-460 | two posts under one attempt ID, running then one final outcome; which outcome and text when, "cancelled" included; and the table it leaves |
| Worker.AttemptIds | internal/worker/worker.go:374-376 | a bound job keeps its attempt ID; an unbound one gets an ID that tells launch times apart |
| Worker.ResultTextReadsBack | internal/worker/worker.go:450-453 | the result text gives back the exit code and the error |
| Worker.TestJobSucceeds | internal/worker/worker.go:402-412 | the challenge exchange end to end leaves the job completed, verified and bound |
| AttemptFence.HeardExactly | internal/coordinator/handlers.go:310-322 | everybody whose update arrives is heard, but once a first post came first only its attempt is |
| AttemptFence.TwoHeardExactly | internal/coordinator/handlers.go:281-322 | under loss, delay, reordering and repetition two attempts are heard if and only if the first thing to reach the job is not a first post and updates of two attempts arrive |
| AttemptFence.TwoHeardInOrder | internal/coordinator/handlers.go:281-322 | if every attempt's updates arrive in order, if and only if that first thing is a cancel |
| AttemptFence.StandsExactly | internal/coordinator/handlers.go:310-344 | a finished job, bound or not, keeps its status or is cancelled if and only if no update arrives that passes the fence and says something else |
| AttemptFence.OutcomeStandsExactly | internal/coordinator/handlers.go:310-344 | after the bound attempt's outcome, if and only if no first post of that attempt arrives again |
| JobAttempts.RunKeepsInv | internal/worker/worker.go:328-370 | over every interleaving of polls, launches, posts and arrivals the job is what the arrived updates and cancels make of it, and those were sent by its executions |
| JobAttempts.RunKeepsOutcomes | internal/worker/worker.go:371-460 | over every run with distinct attempt IDs each attempt sends one outcome at most |
| JobAttempts.TwoHeardInRunExactly | internal/worker/worker.go:354-370 | the two equivalences on two attempts being heard, over every run of the worker and its executions |
| JobAttempts.OneAttemptIsHeard | internal/coordinator/handlers.go:310-322 | once a first post is the first thing to reach the job, its attempt is heard and no other, in every run |
| JobAttempts.FinishedStandsInRunExactly | internal/coordinator/handlers.go:310-344 | when a finished job's status stands, over every run |
| JobAttempts.OutcomeStandsInRunExactly | internal/coordinator/handlers.go:310-344 | when the bound attempt's outcome stands, over every run with distinct attempt IDs |
| JobAttempts.SecondExecutionHappens | internal/worker/worker.go:332-340 | the active table alone does not prevent a second execution |
| JobAttempts.AnyOrder | internal/worker/worker.go:366-369 | updates that were sent can arrive in any order, repeatedly or never |
| JobAttempts.TwoHeardAfterLostPost | internal/worker/worker.go:366-369 | a run without cancels in which a lost first post lets two attempts be heard |
| JobAttempts.TwoHeardAfterCancel | internal/coordinator/handlers.go:281-322 | a run with in-order delivery in which an early cancel does |
| JobAttempts.LateFirstPostReopens | internal/coordinator/handlers.go:315-322 | a run in which a late first post sets a finished job running |

## Left out

- TLS, certificates, pinning, HTTP routing, request decoding, body limits and YAML parsing: the model starts from decoded requests and a parsed manifest.
- Cryptographic primitives, base64, JSON and RFC 3339 parsing: parameters with named ideal laws, no computational security.
- The coordinator's first start (identity and certificate creation), the status and dashboard endpoints, and the job listing without a worker ID: they only read, or save one more field.
- AgentServer.Apply: authentication and the recipient check are recorded as sets of facts, so one check can serve several inserts; this allows more runs than the server has.
- Director.SubmitManifest: RAM and core minimums are carried but not consulted, as in the source.
- Workers and jobs are pointers in the original and values in maps here; no pointer leaves the store's lock there, so no aliasing is lost.
- JobAttempts: one job, and one coordinator process; restarts that lose a binding are covered by CoordinatorRuns.AttemptBinding and CoordinatorRuns.BindingSurvivesExactly only.
- FileReplayStore: lock time-outs are an input (`locks`), left-over temp files are not tracked, and what happens between a reserve and its outcome is one `Pass` or `Reject`.
- JobAttempts and the interleaved systems are state machines on values, since concurrency between lock regions is what they are about; their steps are the functions the store, limiter and worker methods are proved against.
- Two processes on one data directory, file permissions and fsync, Windows access control, process groups, hardware detection, workspace path checks and log size caps.
