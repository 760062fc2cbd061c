# omkit, modelled and proved in Dafny

This project models the parts of omkit whose correctness depends on interleavings, partial failures or exact
encodings, and proves what those parts are for. Code that only computes is written as functions with lemmas about
them. Code that changes state is written as classes and loops, each proved against functions on values. Where calls
interleave, a state machine splits them at their awaits, and the theorems hold over all its runs; a call that nothing
interrupts is proved to be a sequence of the machine's steps (`PollIsSteps`, `TickSteps`, `CallSteps`), or is itself one.

| file | models |
|---|---|
| `common.dfy`, `base64.dfy` | splitting at delimiters, traces, dicts; base64 and base64url (sections 4 and 5 of RFC 4648) with Python's lenient decoder |
| `text.dfy`, `jsontext.dfy` | UTF-8 (section 3 of RFC 3629) and JSON syntax (RFC 8259) as `json.dumps` and `json.loads` have it; that the two undo each other |
| `jsongrammar.dfy` | JSON as a grammar, and that `json.loads` reads exactly its documents |
| `canonical.dfy`, `configdigest.dfy` | `sort_keys`; the scheduler's config hash |
| `jsonbytes.dfy`, `envelope.dfy` | how `json.loads` reads bytes as text; the job envelope |
| `aesgcm.dfy`, `encryption.dfy`, `localdev.dfy`, `openbao.dfy` | the AES-GCM blob, the `v1` token, the KMS key and context bindings |
| `schedulerops.dfy`, `schedulerrows.dfy`, `scheduler.dfy` | the cron reconciler: its passes on values; the theorems from fetched rows to live registrations; the objects |
| `registryops.dfy`, `registryprotocol.dfy`, `registry.dfy` | the task reconciler: its operations, interleaved steps and invariants; the theorems about its runs; the object |
| `eventbusops.dfy`, `eventbusrace.dfy`, `eventbus.dfy` | the polling bus, in the same three parts |
| `streamops.dfy`, `streamprotocol.dfy`, `valkeystream.dfy` | consumer groups and the Redis bus, in the same three parts |
| `breakerops.dfy`, `resilience.dfy` | the circuit breaker and its history; the retry decorator and the objects |
| `settingsops.dfy`, `settingsprotocol.dfy`, `settings.dfy` | the polled settings cache, in the same three parts |
| `modellifecycle.dfy`, `quota.dfy`, `cleanup.dfy` | model loading under a lock, quotas and calendar arithmetic, cleanup under an advisory lock |

Run `dafny verify dfyconfig.toml`. Where a proof has to concentrate, `hide` statements take function bodies out of
its view.

## What is assumed

- SHA-256 and HMAC-SHA256 are injective: a digest is named by its input. AES-GCM is an ideal AEAD, stated over a
  finite ledger of the sealings made so far: ciphertexts have `|plaintext| + 16` bytes, no two sealings share one,
  and a ciphertext opens only under its own key, nonce and associated data (section 7 of NIST SP 800-38D).
- A backend call that raises has had no effect, except where a step says otherwise.
- The event loop runs the callbacks it has queued before it resumes a coroutine that waits for input or output,
  and `gather` resumes after every task it waits for has run its callbacks.
- Clocks, random bytes, handlers, loaders and failures are parameters: every theorem holds for all of them.
- JSON numbers are integers, and strings are Unicode scalar values. A JSON object is its entries in insertion
  order; `Wf` says that no key repeats at any level, which holds of every Python dict.
- A database pool either resets each connection it takes back, which releases the session's advisory locks, as that of
  asyncpg (pyproject.toml:34) does, or resets nothing. Both are modelled; `CleanupProtocol.UnlockFailureLeavesLock` and
  `CleanupProtocol.LeftoverLockBlocks` concern the second kind.

## Where the code and its documentation disagree

The model follows the code.

- `omkit/quota.py:67` says that a `retry_after` of 0 means no retry will help, and the tests expect a refused query
  to carry a positive one; the code returns 0 throughout the last second of every month
  (`Quota.ZeroDelayInLastSecond`).
- `omkit/eventbus.py:269` promises that processing errors do not stop the Redis subscription loop. Three of them do: a
  subscriber survives its next step exactly when the payload is the UTF-8 of a non-empty text that `json.loads` reads
  and the tenant id, if there is one, is UTF-8 (`StreamProtocol.SurvivesExactly`; `StreamProtocol.UncleanInputs` has
  inputs that fail). It never gets past any other entry (`StreamProtocol.UnreadableStopsSubscriber`), and ends
  (`StreamProtocol.UnreadableEndsSubscriber` is such a run).
- `omkit/resilience.py:79` says that the breaker must be closed for a call to go ahead; a half-open one admits every
  call (`BreakerOps.HalfOpenAdmitsAll`).
- `omkit/provider/registry.py:94` promises that `stop` cancels all active tasks and the subscription or poll loop.
  Called before `start` has returned, it finds neither. With the redis backend the subscriber that `start` then
  creates is never cancelled: if any provider is known, a task can run after a finished `stop` exactly when that `stop`
  came before `start` had returned (`RegistryProtocol.RunsAfterStopExactly`), even when `start` itself finds no row
  (`RegistryProtocol.SubscriberOutlivesStop`). With the poll backend the loop that `start` then creates exits at once,
  and what remains, then and later, is exactly the tasks `start` created (`RegistryProtocol.StopDuringStartLeaves`,
  `RegistryProtocol.PollKeepsLeftTasks`). `RegistryProtocol.StopDuringStartLeaks` is a run for either.
- `omkit/jobqueue/envelope.py:107` promises `InvalidEnvelopeError` for any invalid input. `UnicodeDecodeError` escapes
  instead on exactly the bytes that are no text in the encoding `json.loads` guesses for them
  (`Envelope.EscapesExactly`), such as the single byte 0x80 (`Envelope.OneByteEscapes`). So do the two errors by which
  the interpreter limits parsing, which the model does not have: a `ValueError` for an integer of too many digits and a
  `RecursionError` for too deep a nesting.

## Model

| member | source | states |
|---|---|---|
| `RegistryProtocol.OneLiveTaskPerKey` | omkit/provider/registry.py:92-172 | in every interleaving of crashes, completions, callbacks, reconciles, reloads and `stop`, each key has at most one live un-cancelled task, and that task is the one `_tasks` holds |
| `RegistryProtocol.StaleCallbackHarmless` | omkit/provider/registry.py:155-162 | in every run, a done-callback that pops by key never drops a task other than its own |
| `RegistryProtocol.StopLeavesNothing` | omkit/provider/registry.py:92-104 | once a `stop` called after `start` had returned is finished, no task ever started is still running and none is registered, then and in every later state |
| `RegistryProtocol.StopDuringStartLeaves` | omkit/provider/registry.py:72-104 | in the state right after `start` returns to find `stop` finished, for either backend: exactly one new running task for each fetched row of a known provider and no other task; the driver is gone (poll) or listening (redis) |
| `RegistryProtocol.RunsAfterStopExactly` | omkit/provider/registry.py:72-120 | in every reachable state with a finished `stop`: some continuation has a live task iff that `stop` came before `start` had returned and either a task is live already or a provider is known and the driver is not gone; for redis with a known provider, iff `stop` came before `start` had returned |
| `RegistryProtocol.PollKeepsLeftTasks` | omkit/provider/registry.py:72-120 | with the poll backend the tasks such a `start` created are, in every later state, exactly the tasks there are: one for each of its rows of a known provider, on that row's config, never cancelled, and no other |
| `RegistryProtocol.SubscriberOutlivesStop` | omkit/provider/registry.py:83-104 | with redis, a run where `stop` is finished and nothing is live, from which a task is nevertheless started later |
| `RegistryProtocol.StopDuringStartLeaks` | omkit/provider/registry.py:72-104 | a run, for either backend, that ends with `stop` finished and a live task |
| `RegistryProtocol.ReloadAssertsExactly` | omkit/provider/registry.py:131-144 | in every reachable state a reload trips the "already running" assertion exactly when a fetched row of a known provider already has a stored task |
| `RegistryProtocol.AssertionNeverFires` | omkit/provider/registry.py:122-144 | in every run whose notifications spell tenant ids as the database does, the assertion never fires |
| `RegistryProtocol.MisspelledReloadAsserts` | omkit/provider/registry.py:122-144 | with redis, any other spelling of a running tenant's id that the database reads as that tenant trips it |
| `RegistryProtocol.PollNeverAsserts` | omkit/provider/registry.py:106-120 | with the poll backend it never fires in any run |
| `RegistryProtocol.ReconcileConverges` | omkit/provider/registry.py:256-269 | a reconcile leaves no unlisted key, keeps the very task of every listed key that had one (whatever its config), and when nothing is left to await has a task for every listed row of a known provider, a new running one on the row's config where there was none |
| `RegistryProtocol.GatheredStartsAll` | omkit/provider/registry.py:263-269 | a reconcile that had to wait for cancelled tasks then starts every missing row, each a new running task on its row's config |
| `RegistryProtocol.CrashedAwaitsCallback` | omkit/provider/registry.py:155-162 | in every run a stored task that crashed still has its callback to come: none stays stored after it |
| `RegistryProtocol.CallbackPopsExactly` | omkit/provider/registry.py:155-162 | in every run a callback removes its task's key iff the task is stored and crashed; one that returned, or was cancelled from outside, keeps its entry |
| `RegistryProtocol.ReconcileStartsMissing` | omkit/provider/registry.py:256-269 | one reconcile, with tasks ending and callbacks running between its steps, gives every listed row of a known provider whose key was not stored a new running task on the row's config |
| `RegistryProtocol.CrashedComesBack` | omkit/provider/registry.py:155-162 | so in every run, once the callback of a stored task that crashed has run, the next uninterrupted reconcile that lists its key runs a new task under it |
| `RegistryProtocol.ReloadRestartsTenant` | omkit/provider/registry.py:122-134 | a reload ends with a new task on the fetched config for each of the tenant's rows and leaves every other stored task alone |
| `RegistryProtocol.InvHolds` | omkit/provider/registry.py:72-269 | every reachable state satisfies the invariant behind these: stored entries are un-cancelled tasks of their key, unsettled tasks of a stored key are the stored one, orphans are exactly what someone waits for |
| `RegistryOps.StartAllKeeps` | omkit/provider/registry.py:138-153 | starting rows with distinct keys keeps the invariant, adds exactly the known rows' keys, and stops at the assertion iff one of them was stored |
| `RegistryOps.StartedFromRows` | omkit/provider/registry.py:138-153 | unless the assertion fires each known row gets a new task on its own config, and earlier tasks stay stored |
| `RegistryOps.CancelKeeps` | omkit/provider/registry.py:164-172 | cancelling keys removes exactly those keys, asks exactly their running stored tasks to stop and changes no other task, and orphans only tasks that are awaited or already done |
| `RegistryOps.CallbackKeeps` | omkit/provider/registry.py:155-162 | a done-callback keeps the invariant and every entry but its own |
| `RegistryOps.KeyInjective` | omkit/provider/registry.py:143 | `tenant:name` determines tenant and name when the tenant has no colon |
| `Registry.ProviderRegistry.constructor` | omkit/provider/registry.py:48-68 | a new registry has no task and satisfies the invariant |
| `Registry.ProviderRegistry.StartTask` | omkit/provider/registry.py:138-153 | the field updates are the `StartTask` step |
| `Registry.ProviderRegistry.StartRows` | omkit/provider/registry.py:81-82 | the loop over rows is the `StartAll` step, stopping at a fired assertion |
| `Registry.ProviderRegistry.OnTaskDone` | omkit/provider/registry.py:155-162 | the callback is the `Callback` step |
| `Registry.ProviderRegistry.CancelTasks` | omkit/provider/registry.py:164-172 | the pop-and-cancel loop is the `CancelAll` step, and returns exactly the tasks `gather` waits for |
| `Registry.ProviderRegistry.ReloadBegin` | omkit/provider/registry.py:122-128 | ids shorter than 36 characters change nothing; otherwise all of the tenant's keys, and no others, are cancelled |
| `Registry.ProviderRegistry.ReconcileBegin` | omkit/provider/registry.py:256-267 | cancels exactly the stored keys that are not listed and computes exactly the listed rows that are not stored |
| `SchedulerOps.ReconcileKeeps` | omkit/scheduler/scheduler.py:126-200 | whatever calls fail, live registrations stay one to one with entries, each made from a provider of its own key with the recorded cron spec and hash; registers minus unregisters is the number of entries, and enqueue attempts equal registrations |
| `SchedulerOps.ReconcileConverges` | omkit/scheduler/scheduler.py:133-184 | from any state one fault-free pass removes undesired keys, leaves skipped keys alone, and brings a key to its current hash exactly when it was there or a body can be built for it |
| `SchedulerOps.SecondPassIsQuiet` | omkit/scheduler/scheduler.py:133-200 | a second pass over the same rows changes nothing and makes no call, whatever would have failed |
| `SchedulerOps.ChangeDetection` | omkit/scheduler/scheduler.py:154-161 | a registered row causes a backend call exactly when its schedule or its config, compared as nested mappings, changed |
| `SchedulerOps.OneRegistrationPerProvider` | omkit/scheduler/scheduler.py:152-207 | going by what live bodies decode to, no provider has two live registrations |
| `SchedulerOps.BodyDecodes` | omkit/scheduler/scheduler.py:202-216 | a registered body decodes in the worker to that provider's tenant and name and to a config equal to its own |
| `SchedulerOps.DesiredOk` | omkit/scheduler/scheduler.py:133-135 | the desired table has each row's key once, and no other key |
| `SchedulerRows.DesiredIsLastRows` | omkit/scheduler/scheduler.py:133-135 | for tenants without a colon: the last row of every tenant and name is the provider of one desired item, no other item has that tenant and name, and there are exactly as many items as such pairs |
| `SchedulerRows.RowsRegistered` | omkit/scheduler/scheduler.py:126-216 | after one fault-free pass every row that is the last of its tenant and name, whose cron spec derives and whose body builds, has a live registration on that schedule, of the set-up type and queue, whose body unwraps to that tenant, that provider name and an equal config |
| `SchedulerRows.RegisteredAreRows` | omkit/scheduler/scheduler.py:126-216 | and what any live body names after it is the tenant and name of a fetched row |
| `SchedulerRows.ReconcilePlain` | omkit/scheduler/scheduler.py:126-216 | whatever fails, passes over rows whose tenants have no colon leave no live body that names a tenant with one, which those two start from |
| `SchedulerRows.StaleFaultsAreLocal` | omkit/scheduler/scheduler.py:139-150 | every stale entry gets exactly one unregister call, whatever failed before it, and is gone iff its own call did not raise |
| `SchedulerRows.FaultsAreLocal` | omkit/scheduler/scheduler.py:153-200 | every desired row gets its own full turn, whatever failed in the rows before it, and no other row's turn changes its entry |
| `SchedulerRows.JobsAreForRows` | omkit/scheduler/scheduler.py:186-216 | whatever fails, every job enqueued is of the set-up type and queue and carries the tenant and the very payload of a registered body of a desired row |
| `SchedulerRows.OneJobPerRegistration` | omkit/scheduler/scheduler.py:174-200 | a fault-free pass enqueues exactly one job for each registration it makes, if there is an enqueuer |
| `Scheduler.Scheduler.Reconcile` | omkit/scheduler/scheduler.py:126-200 | the imperative pass equals `Reconcile` on values for some order of the stale keys, and the invariant holds after every single backend call in it; failed fetches change nothing |
| `Scheduler.Scheduler.DropStaleEntries` | omkit/scheduler/scheduler.py:139-150 | the unregister loop, an entry surviving a call that raises |
| `Scheduler.Scheduler.ConvergeEntries` | omkit/scheduler/scheduler.py:153-200 | the register loop over the desired rows |
| `Scheduler.Scheduler.ConvergeItem` | omkit/scheduler/scheduler.py:154-200 | one row: unregister before register, and no registration when the unregister raised |
| `Scheduler.Scheduler.RegisterItem` | omkit/scheduler/scheduler.py:174-200 | registration, entry and immediate enqueue, the last only after a registration |
| `Scheduler.Scheduler.AddEntry` | omkit/scheduler/scheduler.py:174-181 | an entry is recorded exactly when the backend registered |
| `Scheduler.Scheduler.DropEntry` | omkit/scheduler/scheduler.py:141-149 | an entry is forgotten exactly when the backend unregistered |
| `Scheduler.Scheduler.EnqueueFirst` | omkit/scheduler/scheduler.py:186-200 | one attempt if there is an enqueuer, whose failure changes no entry |
| `Scheduler.BuildDesired` | omkit/scheduler/scheduler.py:133-135 | the dict comprehension: a repeated key keeps its place and takes the later row |
| `ConfigDigest.HashExact` | omkit/scheduler/scheduler.py:223-230 | two hashes agree exactly when cron specs are equal and configs are equal as nested mappings, whatever the insertion orders and whatever characters, NUL included, the cron specs hold |
| `ConfigDigest.CanonicalHasNoNul` | omkit/scheduler/scheduler.py:225-229 | canonical JSON never holds the separator byte |
| `ConfigDigest.CanonicalBytes` | omkit/scheduler/scheduler.py:225 | what is hashed for a config of two entries, whichever was inserted first: the earlier key first, without a blank |
| `Canonical.CanonicalExact` | omkit/scheduler/scheduler.py:225 | sorted printed texts agree exactly when the values are equal as nested mappings |
| `Canonical.SortMeaning` | omkit/scheduler/scheduler.py:225 | sorting keys at every level changes no value |
| `Canonical.SortCanonical` | omkit/scheduler/scheduler.py:225 | equal values sort to the same entries in the same order |
| `JsonText.LoadsDumps` | omkit/jobqueue/envelope.py:100-114 | `loads` inverts `dumps` on every nested value, entry order included, compact or spaced |
| `JsonText.ValueRoundTrip` | omkit/jobqueue/envelope.py:100-114 | the parser reads a printed value off the front of any delimited text and leaves the rest |
| `JsonText.PrintInjective` | omkit/jobqueue/envelope.py:100 | different values print differently |
| `JsonText.PrintPrintable` | omkit/jobqueue/envelope.py:100 | printed JSON is printable ASCII, whatever the strings in it |
| `JsonText.EscapesAs` | omkit/jobqueue/envelope.py:100 | the escapes of `json.dumps`: short ones, lower-case hexadecimal, surrogate pairs, and a slash as it is |
| `JsonReading.LoadsExactly` | omkit/jobqueue/envelope.py:112-114 | `json.loads` reads a text iff it spells a document of the grammar with white space around it, and reads it as that document's value |
| `JsonReading.DictLastWins` | omkit/jobqueue/envelope.py:112-114 | a repeated key in an object keeps its first place and takes its last value |
| `Envelope.RoundTrip` | omkit/jobqueue/envelope.py:80-124 | `unwrap` of what `wrap` prints is exactly version 1, that tenant, request id (empty and omitted included) and payload; and `wrap` refuses exactly what `unwrap` would |
| `Envelope.WireRoundTrip` | omkit/jobqueue/envelope.py:80-124 | the bytes of `wrap` are printable ASCII and unwrap to their envelope, and so does the same text in UTF-16 or UTF-32 |
| `Envelope.WireText` | omkit/jobqueue/envelope.py:80-100 | `wrap` accepts exactly a UUID tenant with a payload that is not empty, and writes the four fields by name, in order, compactly, without an empty request id |
| `Envelope.UnwrapExactly` | omkit/jobqueue/envelope.py:29-124 | for all texts: `unwrap` gives an envelope iff the text is an object of the known fields only, with a version of 1 (as a number, `true`, or a text that reads as 1), a UUID tenant, a text or no request id and an object payload that is not empty; and it gives just those |
| `Envelope.TrailingText` | omkit/jobqueue/envelope.py:103-124 | anything but white space after the object is refused |
| `Envelope.UnwrapBytesExactly` | omkit/jobqueue/envelope.py:103-124 | the same for all bytes, by the text they spell in the encoding guessed for them |
| `Envelope.BytesAsText` | omkit/jobqueue/envelope.py:103-124 | a text that begins with two ASCII characters is unwrapped like its UTF-8 bytes |
| `Envelope.EscapesExactly` | omkit/jobqueue/envelope.py:103-124 | for all bytes: UnicodeDecodeError escapes `unwrap` iff they are no text in the encoding guessed for them, surrogates let through; every other failure is an InvalidEnvelopeError, save the interpreter's own limits (a plain ValueError for too many digits, a RecursionError), which escape too and are not modelled |
| `Envelope.OneByteEscapes` | omkit/jobqueue/envelope.py:112-116 | the byte 0x80 escapes; an encoded surrogate does not |
| `JsonBytes.DecodesExactly` | omkit/jobqueue/envelope.py:112-114 | bytes decode iff they spell code points: in UTF-8 some sequence of them, in UTF-16 any even number of bytes, in UTF-32 whole units of at most U+10FFFF |
| `JsonBytes.AsciiReadsBack` | omkit/jobqueue/envelope.py:112-114 | ASCII text is read back from its bytes in each of the five encodings |
| `JsonBytes.MarkedReadsBack` | omkit/jobqueue/envelope.py:112-114 | so is text of any length with the byte-order mark of its encoding in front, which is no part of it |
| `Envelope.UnwrapSound` | omkit/jobqueue/envelope.py:103-124 | whatever the input, an accepted envelope passed every validator and carries no unknown key |
| `Envelope.WrapInjective` | omkit/jobqueue/envelope.py:80-100 | different jobs have different bytes |
| `Envelope.BodyValidates` | omkit/jobqueue/envelope.py:50-77 | the validators see in the printed object the envelope it was built from |
| `Utf8.DecodeExact` | omkit/encryption.py:75-97 | strict decoding succeeds on exactly the encodings and returns what was encoded (section 3 of RFC 3629) |
| `Utf8.DecodePointsExact` | omkit/jobqueue/envelope.py:112-114 | so does decoding that lets surrogates through, on encodings of any code points |
| `Utf8.AsciiOnlyAsItself` | omkit/kms/localdev.py:42-44 | a byte below 0x80 occurs in an encoding only as that character |
| `Base64.DecodeEncode` | omkit/encryption.py:59-97 | decoding inverts encoding in both alphabets, through Python's lenient decoder |
| `Base64.ForeignSkipped` | omkit/encryption.py:59-97 | the decoder passes over every ASCII character that is neither in the alphabet nor padding, wherever it stands |
| `Base64.EncodeInjective` | omkit/kms/openbao.py:63-69 | different bytes encode differently |
| `AesGcm.UnwrapExact` | omkit/crypto/aes_gcm.py:65-97 | a blob unwraps to its plaintext under its own key and associated data, and fails authentication under any other |
| `AesGcm.UnwrapSound` | omkit/crypto/aes_gcm.py:83-97 | nothing else unwraps: an accepted blob was wrapped under that very key and associated data |
| `AesGcm.WrongSizes` | omkit/crypto/aes_gcm.py:60-97 | a key that is not 32 bytes is refused both ways, and a blob shorter than nonce and tag never unwraps |
| `Encryption.DecryptExact` | omkit/encryption.py:68-97 | every token passes the length and version gates and decrypts to its own string, the empty one included; under another key it is an invalid token |
| `Encryption.TokenFormat` | omkit/encryption.py:68-76 | a token decodes to the letters `v1`, the nonce and the ciphertext of the UTF-8 plaintext, bound to the text `omkit.encryption.v1` |
| `Encryption.DecryptSound` | omkit/encryption.py:79-97 | a token that decrypts, whatever its characters, is in that format, sealed from that string under that key |
| `Encryption.GeneratedKeyDecodes` | omkit/encryption.py:49-65 | a generated key decodes to the bytes drawn for it |
| `LocalDev.BindingInjective` | omkit/kms/localdev.py:42-44 | for purposes without a bar, HMAC label and bound associated data together determine user, purpose and associated data |
| `LocalDev.NeitherHalfBinds` | omkit/kms/localdev.py:109-115 | neither of the two does so alone |
| `LocalDev.BarInPurposeCollides` | omkit/kms/localdev.py:42-44 | with a bar in the purpose even both together can coincide |
| `LocalDev.CollidesExactly` | omkit/kms/localdev.py:42-44 | for any purposes, exactly when they do: the associated data are equal, and so are the two texts `user-purpose` and the two texts purpose, bar, user; no collision mixes up associated data |
| `LocalDev.DashFreeBinds` | omkit/kms/localdev.py:109-115 | for purposes without a dash the label alone determines user and purpose |
| `LocalDev.UnwrapDekExact` | omkit/kms/localdev.py:129-155 | for any users and purposes, `unwrap_dek` opens what `wrap_dek` sealed exactly when the associated data and both composed texts agree; anything else is an auth error |
| `LocalDev.UnwrapDekBarFree` | omkit/kms/localdev.py:129-155 | so for purposes without a bar any mismatch of user, purpose or associated data is an auth error |
| `LocalDev.StaticUnwrapExact` | omkit/kms/localdev.py:119-123 | `unwrap` inverts `wrap` under the same key id and associated data and fails under any other |
| `LocalDev.FlowsNeverMix` | omkit/kms/localdev.py:119-155 | neither flow opens what the other sealed |
| `LocalDev.KeyFamiliesApart` | omkit/kms/localdev.py:101-115 | static and per-user keys never coincide, and static keys name their key id |
| `OpenBao.ContextInjective` | omkit/kms/openbao.py:63-69 | for purposes without a colon the derived context determines user, purpose and associated data |
| `OpenBao.ContextReadsBack` | omkit/kms/openbao.py:63-69 | the context is standard base64, in both layers, for user, colon, purpose, colon and the associated data |
| `OpenBao.AmbiguousExactly` | omkit/kms/openbao.py:63-69 | a context is shared by another user or purpose exactly when the user or the purpose holds a colon |
| `EventBusOps.DeliveredPrefix` | omkit/eventbus.py:155-221 | one subscriber, any run of publishes, polls, handler failures, crashes between two handler calls of a batch and lost offset updates: the delivery log without repeats is a prefix of the topic in increasing id order and covers the offset, which never decreases |
| `EventBusOps.ExactlyOnce` | omkit/eventbus.py:188-221 | while nothing fails, publishes and polls in any order deliver every event up to the offset exactly once and nothing else |
| `EventBusOps.NewSubscriber` | omkit/eventbus.py:155-167 | a new subscriber satisfies what both of those start from, whatever the table holds |
| `EventBusOps.PollsDeliver` | omkit/eventbus.py:188-221 | `n` fault-free polls deliver exactly the first `n * batch` pending events |
| `EventBusOps.DrainsInCeil` | omkit/eventbus.py:188-221 | `k` fault-free polls drain `n` pending events iff `k >= ceil(n / batch)` |
| `EventBusOps.BatchIsContiguous` | omkit/eventbus.py:190-200 | a batch skips no event of its topic between the offset and its last id |
| `EventBusRace.AtLeastOnce` | omkit/eventbus.py:109-153 | any number of pollers on one consumer name, any commit order, failures and crashes: an event at or below the offset has been handled unless it was committed after some poll had read past its id, even when a slow poller moves the offset back |
| `EventBusRace.OrderedAtLeastOnce` | omkit/eventbus.py:188-221 | with commits in id order there is no such exception |
| `EventBusRace.LostExactly` | omkit/eventbus.py:188-221 | in every reachable state, for every event of the topic: some continuation handles it iff it is not out of reach (the offset past it, no poll in progress about to handle it or to move the offset back below it); and only late events are out of reach |
| `EventBusRace.OutOfReachForever` | omkit/eventbus.py:188-221 | an event out of reach stays out of reach, and so unhandled, in every continuation |
| `EventBusRace.LateCommitIsLost` | omkit/eventbus.py:190-200 | a run with one late commit after which no continuation handles the event |
| `EventBusRace.PollIsSteps` | omkit/eventbus.py:188-221 | an uninterrupted poll of the protocol is the `Poll` function of the single subscriber and of the bus object |
| `EventBus.PostgresEventBus.PublishTenant` | omkit/eventbus.py:109-153 | appends one row; an empty tenant becomes the nil UUID |
| `EventBus.PostgresEventBus.EnsureOffset` | omkit/eventbus.py:159-167 | an offset row is created at 0 and never reset |
| `EventBus.PostgresEventBus.Deliver` | omkit/eventbus.py:201-211 | handlers are called in id order up to and including the first that raises |
| `EventBus.PostgresEventBus.PollOnce` | omkit/eventbus.py:188-221 | the imperative poll is the `Poll` step: the offset moves to the last id only if every handler returned |
| `StreamProtocol.ExactlyOnePlace` | omkit/valkeystream.py:82-164 | in every run of publishers, subscribers, claimers and crashes each entry is in exactly one of undelivered, pending at one consumer, acknowledged; and acknowledged implies its handler finished |
| `StreamProtocol.NothingTakenBack` | omkit/valkeystream.py:117-143 | entries, cursor and acknowledgements only grow, however often the group is created |
| `StreamProtocol.NothingLeftOver` | omkit/eventbus.py:276-307 | in every run in which no handler fails, no acknowledgement is lost and no subscriber ends, every entry handed out is acknowledged or still with a subscriber, and handled and acknowledged once all are idle |
| `StreamProtocol.UnreadableStaysPending` | omkit/eventbus.py:288-306 | in every run an entry whose payload is not the UTF-8 of a non-empty text that `json.loads` reads, or whose tenant id is not UTF-8, is never handled or acknowledged |
| `StreamProtocol.SurvivesExactly` | omkit/eventbus.py:288-307 | a subscriber that has come to an entry has a next step of its own, and survives it iff payload and tenant id are not of that kind, whatever `json.loads` accepts |
| `StreamProtocol.ReadableExactly` | omkit/eventbus.py:289-302 | reading the two fields succeeds on exactly the encodings just described |
| `StreamProtocol.UncleanInputs` | omkit/eventbus.py:289-295 | no payload, a payload byte 0xFF and a tenant id byte 0xFF each fail, whatever the other field holds |
| `StreamProtocol.UnreadableStopsSubscriber` | omkit/eventbus.py:288-307 | in every run, a subscriber that has come to an unreadable entry makes no progress in anything it fetched for as long as it lives |
| `StreamProtocol.UnreadableEndsSubscriber` | omkit/eventbus.py:288-307 | a run in which an unreadable entry ends the subscriber and a good entry fetched with it is stranded unhandled |
| `StreamProtocol.DeathStrands` | omkit/eventbus.py:288-307 | a subscriber that ends, there or by a crash, strands every entry it had fetched and not finished with |
| `StreamProtocol.BusAloneAtMostOnce` | omkit/eventbus.py:267-307 | without claims no handler is called twice for one entry, in any run |
| `StreamProtocol.StrandedForever` | omkit/eventbus.py:276-307 | without claims, a pending entry no subscriber has is never delivered again |
| `StreamProtocol.FailureStrands` | omkit/eventbus.py:303-307 | a handler failure or a lost acknowledgement strands its entry in that sense |
| `StreamProtocol.PublishedReadsBack` | omkit/eventbus.py:250-302 | what is published is readable: under `payload` the UTF-8 of the JSON text, and it reads back as the same payload and tenant, an empty tenant as none |
| `StreamOps.ReadKeeps` | omkit/valkeystream.py:127-139 | a read delivers the next entries in order, without a gap, to this consumer alone |
| `StreamOps.AckKeeps` | omkit/valkeystream.py:141-143 | an acknowledgement moves exactly its entry, and nothing if it is not pending |
| `StreamOps.ClaimKeeps` | omkit/valkeystream.py:145-164 | a claim only changes the owner and time of stale entries |
| `StreamOps.ScanExact` | omkit/valkeystream.py:145-164 | exactly which entries a claim takes: idle for at least `idle`, with fewer than 10 x count pending and fewer than count claimable ones before them, each once and in order |
| `StreamOps.ClaimedExactly` | omkit/valkeystream.py:145-164 | the same by the times at which entries were handed out, and by counting the entries before |
| `StreamProtocol.LeaseRespected` | omkit/valkeystream.py:127-164 | in every run whose clock does not run backwards, an entry handed out at some time, by a fetch or a claim, is in no claim made less than that claim's own `idle` later |
| `StreamProtocol.ClaimsWhenDue` | omkit/valkeystream.py:145-164 | in every run a claim takes every entry whose time is up, unless 10 x count pending or count claimable ones come before it |
| `StreamProtocol.ClaimDeliversTwice` | omkit/valkeystream.py:145-164 | a run in which a claim takes an entry over from a subscriber that is still handling it, and the handler is called twice |
| `StreamOps.ClaimsNothingExactly` | omkit/valkeystream.py:145-164 | a claim is empty iff every stale entry has 10 x count fresh ones before it |
| `StreamProtocol.EmptyClaimMeans` | omkit/valkeystream.py:145-164 | so in every run, whoever else reads, claims and acknowledges, a claim that comes back empty tells that only such stale entries are left |
| `StreamOps.DrainExact` | omkit/valkeystream.py:141-164 | the claim-then-acknowledge loop ends, under any clock that does not run backwards, having acknowledged exactly the entries that are stale by the last claim and have fewer than 10 x count fresh ones before them |
| `StreamOps.DrainsAll` | omkit/valkeystream.py:141-164 | with fewer than 10 x count entries still fresh by the last claim it drains every stale one |
| `ValkeyStream.Flatten` | omkit/valkeystream.py:167-176 | the nested loops return every stream's entries, in order |
| `ValkeyStream.Reassign` | omkit/valkeystream.py:145-164 | the claim scan, changing leases as it goes, takes exactly the claimed ids and leases exactly those |
| `ValkeyStream.StreamProducer.Add` | omkit/valkeystream.py:82-85 | appends one entry and returns its id |
| `ValkeyStream.StreamConsumer.EnsureGroup` | omkit/valkeystream.py:117-125 | creates the group or leaves it as it is |
| `ValkeyStream.StreamConsumer.Read` | omkit/valkeystream.py:127-139 | returns the newly delivered entries with their ids and fields, or raises and changes nothing |
| `ValkeyStream.StreamConsumer.Ack` | omkit/valkeystream.py:141-143 | the `Ack` step |
| `ValkeyStream.StreamConsumer.ClaimStale` | omkit/valkeystream.py:145-164 | returns the claimed entries with their ids and fields, now leased to this consumer |
| `BreakerOps.RefinesHistory` | omkit/resilience.py:47-75 | for any order of reads, successes and failures: the counter is the failures since the last success; closed iff below the threshold; else the opening time is the last failure's, and half open iff a second or later read since came late enough |
| `BreakerOps.AdmittedExactly` | omkit/resilience.py:77-84 | under a monotone clock a call is admitted iff the circuit is closed, or it is not the first read since the last failure and comes `reset_timeout` after it |
| `BreakerOps.WindowIsClosed` | omkit/resilience.py:52-57 | no call is admitted inside the window, and the first read after the opening failure always rejects |
| `BreakerOps.HalfOpenAdmitsAll` | omkit/resilience.py:52-84 | half open limits nothing until a call ends |
| `BreakerOps.RunsRecordedOnce` | omkit/resilience.py:77-91 | in every interleaving of overlapping calls the breaker is what its history prescribes, and each admitted run is recorded exactly once, cancelled ones not at all |
| `Resilience.AtMostThreeRuns` | omkit/resilience.py:103-120 | a decorated call runs the function at most three times, again only after a failure worth retrying (no connection, a timeout, status 502, 503 or 504), never after a rejection, and gives up on such a failure only when all attempts are used |
| `Resilience.RetriesExactly` | omkit/resilience.py:94-120 | a decorated call makes a second attempt iff the first ended in a failure worth retrying |
| `Resilience.TransientExactly` | omkit/resilience.py:94-100 | `_is_transient` holds of exactly those failures |
| `Resilience.DecoratedRecordsOnce` | omkit/resilience.py:85-120 | every run that is not cancelled is recorded exactly once; rejections are not failures |
| `Resilience.RunsUntilOpen` | omkit/resilience.py:77-120 | an always-transient function runs exactly `fail_max` times before the first CircuitOpen, in call number `fail_max / 3` counted from 0, whatever the clock does |
| `Resilience.CircuitBreaker.constructor` | omkit/resilience.py:38-45 | starts as the fresh breaker |
| `Resilience.CircuitBreaker.State` | omkit/resilience.py:47-57 | reading the property is the `Observe` step |
| `Resilience.CircuitBreaker.RecordSuccess` | omkit/resilience.py:59-65 | the `RecordSuccess` step |
| `Resilience.CircuitBreaker.RecordFailure` | omkit/resilience.py:67-75 | the `RecordFailure` step |
| `Resilience.CircuitBreaker.Call` | omkit/resilience.py:77-91 | rejects exactly when the state read is open, records the outcome otherwise, and leaves a cancelled run unrecorded |
| `Resilience.Resilient` | omkit/resilience.py:103-120 | the retry loop on the breaker object is the `Decorated` function |
| `SettingsProtocol.CacheAgrees` | omkit/settings.py:185-260 | in every run, failed and cancelled polls and writes during a poll included, every plain row up to the watermark has its decoded value in the cache, and a key only ever written secret is not in it |
| `SettingsProtocol.WatermarkMonotone` | omkit/settings.py:234-258 | the watermark never decreases |
| `SettingsProtocol.ListenersInOrder` | omkit/settings.py:249-256 | within a poll listeners are called in `updated_at` order; across polls no listener of a key sees an older version after a newer one |
| `SettingsProtocol.BadRowBlocks` | omkit/settings.py:240-260 | a plain row that cannot be decoded keeps the watermark below it |
| `SettingsProtocol.LoadSetsWatermark` | omkit/settings.py:185-211 | a load sets the watermark iff it reads a row and every plain row decodes |
| `SettingsProtocol.DeafForever` | omkit/settings.py:226-233 | without a watermark no write is ever polled again, in any run without a load |
| `SettingsOps.PollConverges` | omkit/settings.py:226-258 | one undisturbed poll brings the cache up to date with the whole table iff every plain row past the watermark decodes, and otherwise does not move the watermark |
| `SettingsOps.AbsorbExact` | omkit/settings.py:193-207 | what a loop over fetched rows leaves in the cache, complete or cut short |
| `SettingsProtocol.GetServes` | omkit/settings.py:88-93 | in every run `get` returns the table's own decoded value for each plain row up to the watermark, whatever the default, and the default for a key only ever written secret |
| `SettingsProtocol.ServesWritten` | omkit/settings.py:88-93 | in every run with the JSON parser, a plain row up to the watermark that holds the printed form of a value, as text or as UTF-8, is served as that value; one handed over as a value as it is; text that is no JSON as itself |
| `SettingsOps.DecodeMeans` | omkit/settings.py:199-207 | the same for one row and any loader; bytes that are not UTF-8 raise |
| `SettingsProtocol.NotUtf8Blocks` | omkit/settings.py:199-207 | so a plain row of such bytes keeps the watermark below it in every run |
| `SettingsProtocol.ChangesAnnounced` | omkit/settings.py:234-258 | in every run: of every plain row the watermark has moved past since some moment, with no load since, the listeners of its key have been called with its value, failed and cancelled polls and writes during a poll included |
| `SettingsProtocol.PollIsSteps` | omkit/settings.py:226-260 | an uninterrupted poll of the protocol is the `Poll` function of the manager object |
| `Settings.SettingsManager.OnChange` | omkit/settings.py:116-121 | appends a callback to the key's list |
| `Settings.SettingsManager.LoadFromPool` | omkit/settings.py:185-211 | the load loop is `Absorb`; the watermark is saved only if no row raised; a failed fetch changes nothing |
| `Settings.SettingsManager.Notify` | omkit/settings.py:249-256 | every callback of the key is called, in registration order |
| `Settings.NotifiedExact` | omkit/settings.py:240-256 | who is called by a poll: exactly the callbacks of the plain rows it gets to, with those rows' values |
| `Settings.NotifiedCount` | omkit/settings.py:249-256 | and how often: each callback once for each row of its key |
| `Settings.SecretsExact` | omkit/settings.py:193-198 | the keys a load notes as secret are exactly those of the secret rows it gets to |
| `Settings.SettingsManager.PollOnce` | omkit/settings.py:226-260 | the poll loop is `Poll`, with exactly the listener calls of the rows it reached |
| `LifecycleProtocol.LoadsAndUnloadsAlternate` | omkit/model_lifecycle.py:82-118 | over any interleaving without cancellation inside a job and with a loader that returns a model: executions never overlap, successful loads and unloads strictly alternate, and loads minus unloads is 1 if the model is in memory and 0 otherwise |
| `LifecycleProtocol.OverlapNeedsOrphan` | omkit/model_lifecycle.py:86-114 | in every run, cancellations included, tasks never have two executions under way: an overlap involves a thread orphaned by a cancellation |
| `LifecycleProtocol.StoppingTheReaperOverlaps` | omkit/model_lifecycle.py:167-192 | the cancellation condition is needed: `unload_all` during a reaper's unload runs a second unload beside it |
| `LifecycleProtocol.NoneLoadsTwice` | omkit/model_lifecycle.py:86-102 | so is the one on the loader: one that returns None is run again without an unload |
| `LifecycleProtocol.SweepUnloadsIdle` | omkit/model_lifecycle.py:180-190 | in every run without `touch`, an unload a reaper's sweep has under way acts on a model not used since the sweep looked, unless the sweep had to wait for the lock |
| `LifecycleProtocol.SweepsUnusedExactly` | omkit/model_lifecycle.py:82-190 | in every run whose clock does not run backwards, the reaper takes up a loaded model iff every `touch`, and every call of `ensure_loaded` that left a model, lies `ttl` or more back |
| `LifecycleProtocol.WaitingSweepUnloadsFresh` | omkit/model_lifecycle.py:180-190 | if it had to wait, it may unload a model that was loaded anew after it looked |
| `LifecycleProtocol.CallRuns` | omkit/model_lifecycle.py:82-118 | an uninterrupted call is a run of the protocol's steps and leaves every other task where it was |
| `ModelLifecycle.Lifecycle.EnsureLoaded` | omkit/model_lifecycle.py:82-102 | ends where the protocol's steps of a load end; loads only if unloaded, restarts the idle clock of a model whether it was loaded already or is now, and a raising loader changes nothing |
| `ModelLifecycle.Lifecycle.Touch` | omkit/model_lifecycle.py:76-80 | the `Touch` step: restarts the idle clock and nothing else |
| `ModelLifecycle.Lifecycle.Unload` | omkit/model_lifecycle.py:104-118 | ends where the protocol's steps of an unload end; unloads only if loaded, and a raising unloader leaves the model loaded |
| `ModelLifecycle.Registry.UnloadAll` | omkit/model_lifecycle.py:167-175 | every model is unloaded, or the loop ended at the first unloader that raised with the models after it untouched |
| `ModelLifecycle.Registry.Sweep` | omkit/model_lifecycle.py:180-190 | every model loaded and unused for `ttl` is unloaded unless its unloader raised, and no other model is touched |
| `Quota.DelayReachesNextMonth` | omkit/quota.py:236-248 | for every instant the delay is between 0 and 31 days, the cap never alters it, and it ends at most at the next month's start and less than a second before; only December 9999 has none |
| `Quota.ZeroDelayInLastSecond` | omkit/quota.py:236-248 | the delay is 0 iff less than one second of the month is left |
| `Quota.OrdinalCountsDays` | omkit/quota.py:244-248 | the closed-form day number `datetime` uses advances by one from each date to the next, leap years and year ends included |
| `Quota.AdmittedExactly` | omkit/quota.py:152-187 | within the limits, a request is admitted iff recording it stays within them |
| `Quota.RunsStayWithin` | omkit/quota.py:152-187 | a serial run of checked requests of any sizes passes no limit, nor where it started if a limit was lowered |
| `Quota.OverlappingUploads` | omkit/quota.py:152-172 | exactly when two uploads checked against the same usage are both admitted and together exceed a limit |
| `Quota.RefusalInforms` | omkit/quota.py:152-172 | a refusal for documents means that no upload of any size is admitted; one for storage names the limit and usage whose difference is exactly the largest size admitted |
| `Quota.QueryRefusalInforms` | omkit/quota.py:175-187 | a query is refused iff usage reaches the limit; the refusal names the resource, the limit and the usage, and as `retry_after` the whole seconds left of the month; an admitted request names nothing |
| `Quota.CapBounds` | omkit/quota.py:236-241 | the cap by itself: identity from 0 to 32 days, a minute below, 32 days above |
| `Quota.NoRetryHelps` | omkit/quota.py:152-187 | a refused upload is refused again after any serial run of further requests of non-negative size, as its `retry_after` of 0 says |
| `CleanupProtocol.MutualExclusion` | omkit/cleanup.py:39-62 | while no session is dropped, at most one replica is inside its task, in every interleaving, failed tasks, lock calls and unlocks included |
| `CleanupProtocol.ReturnedUnlocked` | omkit/cleanup.py:50-62 | if unlocks also succeed or the pool resets, the lock has count one on the connection of the replica inside and zero everywhere else, so every connection goes back unlocked |
| `CleanupProtocol.DropBreaksExclusion` | omkit/cleanup.py:50-62 | the condition on sessions is needed |
| `CleanupProtocol.UnlockFailureLeavesLock` | omkit/cleanup.py:57-62 | so is the one on unlocks, for a pool that resets nothing |
| `CleanupProtocol.LeftoverLockBlocks` | omkit/cleanup.py:52-56 | in every run without a drop, a lock left on an idle connection keeps every replica out until that connection is used again |
| `CleanupProtocol.TickRuns` | omkit/cleanup.py:50-62 | an uninterrupted tick is a run of the protocol's steps and, unless an unlock raised in a pool that resets nothing, leaves every session's count as it was |
| `Cleanup.Loop.Tick` | omkit/cleanup.py:50-62 | ends where the protocol's steps of a tick end, whatever raises in it; the task runs iff the lock call returns and no other session has the lock |
| `Cleanup.Loop.Run` | omkit/cleanup.py:39-48 | the loop over ticks is the protocol's ticks one after the other, whatever raises in them: a raised tick ends nothing |
| `CleanupProtocol.AloneRunsEveryTick` | omkit/cleanup.py:39-62 | a replica alone leaves no lock behind, however its ticks fail, and runs its task in every tick whose lock call returns, unless an unlock raises in a pool that resets nothing |

## Left out

- Floating-point numbers, NaN and Infinity in JSON, lone surrogates in strings, recursion and digit limits of the
  parser: the model's numbers are integers and its strings Unicode scalar values. (The Redis subscriber is modelled for
  any behaviour of `json.loads`.)
- EscapesExactly: a plain `ValueError` for an integer past the interpreter's digit limit and a `RecursionError` also
  escape `unwrap`, because neither is a `JSONDecodeError`; the model's parser has no such limits.
- UnwrapBytes: what `json.loads` reads from text with lone surrogates is a parameter, since no string of the model holds
  them; pre-parsed dicts enter at `Validate`.
- What `uuid.UUID` accepts and which integers pydantic reads from strings are parameters of the envelope's validators.
- `LocalDevKMS.from_env` and the master's length check; OpenBao's network client, tokens and error mapping;
  `KUser`, key resolvers and the associated-data constants.
- `Scheduler` and `ProviderRegistry` outside their reconcile logic: backend start and shutdown, reconnect backoff,
  SQL. A cron deriver or config hash that raises ends the scheduler's loop; the model's deriver does not raise.
- `json.dumps` failing on a config, where `_build_payload` falls back to an empty object: every modelled value prints.
- Cancellation in the middle of a scheduler's backend call, whose effect is then unknown.
- Several drivers of one `ProviderRegistry`, such as `start` called twice, and a second call of `stop`.
- A provider class whose constructor raises in `_start_task`: it ends `start` before there is a driver and cuts a
  reconcile or a reload short. In the model every known row's task is created.
- `PostgresEventBus` roles and transactions, `created_at` and payload parsing; Redis and Valkey outside one stream and
  group: trimming, deletion, blocking reads, delivery counts, `JUSTID`.
- `_normalize_fields` and `_coerce_id`: conversions that depend on the client's configuration. Fields come back as
  bytes, as they do unless the client decodes responses itself.
- DrainExact: no other consumer acts on the group meanwhile; with others, what the loop's last claim tells is
  `StreamProtocol.EmptyClaimMeans`.
- DrainsAll: the same.
- ModelLifecycle.Registry.Sweep: one sweep that nothing interrupts; a sweep among other tasks is a step of
  `LifecycleProtocol`.
- Cleanup.Loop.Run: the endless loop is modelled as any finite number of its ticks, each uninterrupted.
- `wait_exponential` between attempts and threads: delays only move the clock, which is arbitrary.
- The settings file cache, the SQLAlchemy loader, the pub/sub subscriber, `_validate` and `get_secret`.
- Quota loading and usage recording (SQL).
- `start_reaper` replacing a running reaper, metrics and garbage collection of the model lifecycle.
- Sessions, authentication, feature flags, tenants, sanitising, health, metrics, tracing, logging, cost, HTTP client
  and configuration: small lookups or plumbing.
