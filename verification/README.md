# Verified models of whatsapp-rust's stateful cores

This project models five pieces of a WhatsApp client library in Dafny 4.11 and proves what
they promise over every input, every run or every interleaving.

| files | what they model |
|---|---|
| `FlushWord.dfy`, `FlushProtocol.dfy`, `FlushLoop.dfy` | the flush scope: a packed atomic word, the drain protocol around it as an interleaved step system, and the waiting loop run against arbitrary interference |
| `DownloadTypes.dfy`, `MediaSink.dfy`, `MediaRetry.dfy`, `MediaAccounting.dfy` | media downloads: the sink discipline, the two retry loops, and what their calls and errors mean |
| `ResponseWaiters.dfy`, `WaiterRuns.dfy` | the table of pending IQ and ack waiters, its generations, sweep epochs and mirrored counter |
| `NodeWaiters.dfy`, `Backoff.dfy` | swap-removing stanza waiters; the capped Fibonacci reconnect delay |
| `Quarantine.dfy`, `QuarantineRuns.dfy` | the token-bucket retry quarantine |
| `Utf8.dfy`, `ArchiveFormat.dfy`, `ArchiveFile.dfy`, `InboxArchive.dfy` | the durable inbox archive: UTF-8, printer and parser, the file as bytes, dedup and commit-before-ack |
| `Common.dfy` | option, result, byte and 64-bit types; concatenation |

`dafny verify dfyconfig.toml` checks everything. Mutable objects of the source are classes
whose methods are proved against functions over values; the run theorems are lemmas about
those functions.

What stands for the outside world:

- Threads of the flush scope interleave as sequentially consistent steps. A notify reaches every
  listener registered at that moment. A listener dropped while notified hands its notification on,
  as the event library does: `spare` counts those under way and `Stray` delivers one, at any later
  time and to any listener.
- A download's `prepare` and `execute` answers are functions of everything asked before, so any
  behaviour of the CDN and the session is covered. Decryption hands plaintext chunks to the writer
  and then gives a verdict; a failed verdict may follow any bytes. An `anyhow` error is a value.
- A sink's operations fail by an arbitrary plan, and a failed operation leaves the sink in any state.
- Clock readings, jitter draws and disk failures are parameters. `f64` is `real`.
- The archive file is a sequence of bytes of which a prefix is synced. A failed write leaves any
  number of the bytes behind; a crash keeps the synced bytes and any number of those after them.
  Opening syncs nothing, so how much of an opened file is synced is a parameter.

## Where the code and its promises part

- Phash waiters (src/client.rs:1407-1416): one stamped in the last epoch before the 64-bit epoch
  counter wraps is never swept. `SurvivesExactlyOneSweep` gives the exact condition.
- Generations (src/client.rs:1346-1353): a cleanup removes the registration it finds exactly if a
  multiple of 2^64 - 1 registrations came since its own, which need not be its own
  (`GuardedCleanupHits`). `CleanupHitsAnother` builds such a run.
- Quarantine (examples/retry_quarantine.rs:53-66): `last_refill` follows the clock backwards, so
  samples taken out of order earn more than the elapsed time. For all configurations and numbers of
  calls, the elapsed time bounds the admissions on exactly the clocks that never go back
  (`ElapsedBoundsIffMonotone`); `OutOfOrderExceedsElapsed` is the smallest case. The bound that
  always holds counts the clock's forward steps (`BucketBound`).
- Archive, torn characters (examples/durability_hook.rs:54-77): the file is read as UTF-8, so an
  append torn inside a character makes the archive unreadable, with every record written before it,
  and no later append repairs it (`UnreadableForever`). It opens exactly if the tear is at a
  character boundary, and then recovers exactly the whole records (`CrashRecovery`).
  `TornCharacterBlocksOpen` gives the failing cut for any character beyond ASCII, and
  `TornAccentBlocksOpen` one literal file.
- Archive, torn lines (examples/durability_hook.rs:56-83): the parser skips a torn last line, but
  the file is then reopened for appending behind it, and a failed write leaves the same situation in
  a running process. Appending recovers its record for every key exactly when the file reads as
  whole records (`AppendSafeIffWhole`). Key fields holding a tab or newline are never recovered
  (`RecoveredIffClean`). `TornLineSwallows` builds a run in which a failed write is followed by a
  message that is written, synced and acknowledged, and the archive opens without it.
- Archive, acknowledging known keys (examples/durability_hook.rs:123-128, 141): a batch of known
  keys is acknowledged without a sync. A record that a crashed process wrote but did not sync is
  known after the restart, so its redelivery is acknowledged and a second crash can lose it:
  `UnsyncedAcknowledged` is that run, from an empty archive. Over every run, a known batch is in the
  synced bytes exactly if the running process has written anything, or the batch was in the synced
  bytes it was opened with (`KnownIsDurableIff`).
- Backoff (src/client.rs:2463-2471): the comment puts the cap at attempt 17; the code reaches it at
  attempt 15 (`CapReached`). The schedule is unaffected.

## Model

| member | source | states |
|---|---|---|
| FlushWord.PairDeterminesWord | src/flush_scope.rs:28-36 | the word and the pair (closed, count) determine each other |
| FlushWord.FlushScope.constructor | src/flush_scope.rs:52-59 | a new scope is open and tracks nothing |
| FlushWord.FlushScope.Close | src/flush_scope.rs:65-67 | sets the closed bit and leaves the count |
| FlushWord.FlushScope.Reopen | src/flush_scope.rs:69-71 | clears the closed bit and leaves the count |
| FlushWord.FlushScope.TryTrack | src/flush_scope.rs:77-100 | grants exactly when open and not saturated; a refusal changes nothing |
| FlushWord.FlushScope.DropGuard | src/flush_scope.rs:186-194 | never wraps, keeps the closed bit, notifies exactly on the last guard |
| FlushWord.FlushScope.Pending | src/flush_scope.rs:157-159 | the count read from the word is the number of live guards |
| FlushProtocol.StepKeepsInv | src/flush_scope.rs:65-194 | every step of every thread keeps count = live guards, live = granted - dropped, and that no wakeup is lost |
| FlushProtocol.DecrementKeepsInv | src/flush_scope.rs:186-194 | a decrement of a live guard never underflows, keeps the closed bit, and owes a notify on the 1-to-0 edge |
| FlushProtocol.PackedWordRefines | src/flush_scope.rs:29-36 | in every run the word is 2 * (granted and not dropped) + (1 if the last close or reopen was a close), computed from the history alone |
| FlushProtocol.NoLostWakeup | src/flush_scope.rs:129-152 | in every interleaving, a flusher parked without a notification has a live guard or an owed notify to wait for |
| FlushProtocol.DrainedFlusherCompletes | src/flush_scope.rs:129-152 | once all guards are gone, a parked flusher can complete within four steps |
| FlushProtocol.DrainedRunsComplete | src/flush_scope.rs:129-152 | once all guards are gone, whatever else runs, a flusher that neither expires nor is cancelled has completed or has a helping step ready, and at most owed notifies + 4 of those exist |
| FlushProtocol.ClosedGrantsNothing | src/flush_scope.rs:30-36 | once close has returned nothing further is granted until a reopen |
| FlushProtocol.TeardownSafety | src/flush_scope.rs:65-159 | after close, a flush that completed and no reopen: every guard ever granted was dropped by then, none granted since, and the word is the bare closed bit |
| FlushProtocol.LoopBacksConsumeNotifies | src/flush_scope.rs:133-151 | each loop-back of flush consumes its own notification, over any run, hand-overs by other flushers counted |
| FlushProtocol.FlushIterationsBounded | src/flush_scope.rs:133-151 | on a scope that stays closed, flush goes round at most outstanding notifies + 2 times, plus one per notification another flusher hands on; alone, without that |
| FlushLoop.Interfere | src/flush_scope.rs:129-152 | others' enabled steps are all taken, in order; whatever they do between two steps of a flusher, its own phase changes at most by a notification |
| FlushLoop.PerformTakesAll | src/flush_scope.rs:129-152 | steps of others that lead from state to state are taken to the last |
| FlushLoop.RoundVerdict | src/flush_scope.rs:133-151 | a round completes exactly if its check meets no live guard; otherwise it times out exactly if its deadline passes, and without that a notified flusher is back at the loop head and another goes on waiting |
| FlushLoop.OneRound | src/flush_scope.rs:133-151 | the loop body is that round, and times out only if its deadline passes |
| FlushLoop.TimesOutOnlyByDeadline | src/flush_scope.rs:139-149 | a call that times out does so in a round whose deadline passes, undecided before |
| FlushLoop.DrainedFlushCompletes | src/flush_scope.rs:129-152 | once the rounds have left no guard alive and no notify owed, a call that has not returned completes in the next round |
| FlushLoop.WokenFlushCompletes | src/flush_scope.rs:129-194 | the last guard dropped and its notify issued during the wait, the flusher wakes and completes |
| FlushLoop.Flush | src/flush_scope.rs:129-152 | every execution of the loop under any interference is a run of the step system, so the run theorems hold of it; while it waits, a wakeup is still due, and it goes round as often as it is woken |
| DownloadTypes.ValidateStatus | src/download.rs:374-387 | below 300 passes; exactly 401/403 are auth and 404/410 not-found rejections; the status is kept |
| DownloadTypes.DeliveredExactly | src/download.rs:389-412 | a response delivers its chunks end to end exactly if its status is below 300 and its body authenticated; otherwise it fails with its own status or cause |
| MediaSink.Overwrite | src/download.rs:955-961 | bytes land where the position says; the rest of the sink keeps its contents |
| MediaSink.Sink.WriteAll | src/download.rs:955-961 | append mode writes at the end whatever the position; at the end both modes append |
| MediaSink.ClearWriter | src/download.rs:962-966 | on success the sink is empty at position 0; a failure is one of the sink's own |
| MediaSink.FinishVerifiedWrite | src/download.rs:974-978 | rewinds and keeps the contents, or reports the sink's failure |
| MediaSink.DiscardFailedWrite | src/download.rs:988-1000 | the failure comes back unchanged with the sink empty, or inside Cleanup with the sink's error; the first exactly when the sink did not fail |
| MediaSink.WriteChunks | wacore/src/download.rs:731-776 | the plaintext pieces written one by one leave their concatenation, or the sink failed |
| MediaSink.StreamingDownload | src/download.rs:1004-1064 | success only of an authenticated answer, and leaves its chunks end to end at position 0, whatever the sink held; a failure is the response's own or the sink's |
| MediaSink.BufferedDownload | src/download.rs:1067-1096 | the same on the buffered path, which touches the sink only with verified plaintext |
| MediaSink.ExecuteToWriter | src/download.rs:1011-1013 | both paths meet one contract |
| MediaSink.ExecuteIntoMemory | src/download.rs:590-607 | streaming into a fresh buffer and decrypting in place both succeed exactly on an authenticated answer, with its chunks end to end |
| MediaRetry.DownloadMediaWithRetry | src/download.rs:421-492 | the in-memory loop computes the recursive specification; its trailing no-error arm is unreachable |
| MediaRetry.DownloadToWriterWithRetry | src/download.rs:494-586 | the writer loop is bisimilar to the in-memory loop on the same oracle: same calls, same bytes at position 0, same failure up to Cleanup; a sink failure cuts the calls short; every owned failure leaves the sink empty or says Cleanup |
| MediaRetry.HostsExtend | src/download.rs:455-481 | a loop only appends calls, and asks the first host left next |
| MediaAccounting.RetryAccounting | src/download.rs:444-491 | for any budget: first prepare unforced, later ones forced, hosts in order, refreshes = invalidations <= budget, and the result means what the last call says |
| MediaAccounting.SucceedsExactly | src/download.rs:444-491 | a download succeeds exactly when its last call is answered below 300 with an authenticated body, and returns that body's chunks end to end |
| MediaAccounting.FailedHostMovesOn | src/download.rs:473-491 | a host lost, unreachable, refused or failing authentication is followed by the next host of its route, or ends the download with its cause; it never invalidates |
| MediaAccounting.RejectionRefreshes | src/download.rs:459-472 | a 401, 403, 404 or 410 is followed by an invalidation and a forced prepare, or ends the download with the budget used up |
| MediaAccounting.RefreshedOnce | src/download.rs:636-644 | without a static URL the first rejection is met with a refresh, and there is only one |
| MediaAccounting.RouteExhausted | src/download.rs:483-491 | running out of hosts reports the last host's own failure |
| MediaAccounting.NoHostsExactly | src/download.rs:450-452 | NoHosts is returned exactly when the first route is empty |
| MediaAccounting.EmptyRefreshKeepsRejection | src/download.rs:347-352 | an empty refreshed route yields NoHostsAfterRefresh with the latest rejection |
| MediaAccounting.StaticUrlNeverRefreshes | src/download.rs:636-644 | a static URL never invalidates the media connection |
| ResponseWaiters.ResponseWaiterMap.NoteAdded | src/client.rs:1320-1324 | counts a stream waiter before it is in the table |
| ResponseWaiters.ResponseWaiterMap.NoteRemoved | src/client.rs:1326-1330 | uncounts a stream waiter after it left the table, without underflow |
| ResponseWaiters.ResponseWaiterMap.NextGenerationStamp | src/client.rs:1346-1353 | terminates, wraps past zero and never yields it |
| ResponseWaiters.ResponseWaiterMap.TryInsertGuardedWaiter | src/client.rs:1355-1368 | never replaces; the moments inside are the counted waiter, then the table with it |
| ResponseWaiters.ResponseWaiterMap.InsertWaiter | src/client.rs:1370-1385 | replaces and returns the old waiter; the moments inside are the counted waiter, the table with it, then the old one uncounted |
| ResponseWaiters.ResponseWaiterMap.RemoveWaiter | src/client.rs:1387-1393 | the id is gone, every other entry stays, and the waiter it had is returned; the moments inside are the table without it, then the counter without it |
| ResponseWaiters.ResponseWaiterMap.TakeStreamWaiter | src/client.rs:1334-1345 | takes a stream waiter out and returns its sink, and leaves every other kind |
| ResponseWaiters.ResponseWaiterMap.DropExpired | src/client.rs:1407-1416 | drops the phash waiters of earlier epochs and advances the epoch, keeping the stream count |
| ResponseWaiters.ResponseWaiterMap.RemoveGuardedWaiter | src/client.rs:1418-1426 | removes only an entry of that generation |
| ResponseWaiters.ResponseWaiterMap.ClearAll | src/client.rs:1431-1434 | its two moments are the emptied table, then the zeroed counter; the generation sequence is kept |
| ResponseWaiters.ZeroMeansNone | src/client.rs:1304-1308 | a lock-free reader that meets zero misses no registered stream waiter |
| WaiterRuns.StampRecurs | src/client.rs:1346-1353 | a generation recurs exactly after each full period of 2^64 - 1 |
| WaiterRuns.GuardedCleanupExact | src/client.rs:1293-1296 | within a period, guarded cleanup removes its own registration if it is still there and changes nothing otherwise |
| WaiterRuns.SameGenerationIff | src/client.rs:1346-1385 | two registrations of an id wear the same generation exactly if a multiple of 2^64 - 1 registrations lies between them |
| WaiterRuns.GuardedCleanupHits | src/client.rs:1418-1426 | with any number of registrations in between, cleanup removes the registration it finds exactly if a multiple of 2^64 - 1 registrations came since its own; without an entry it does nothing |
| WaiterRuns.CleanupHitsAnother | src/client.rs:1346-1426 | a run from an empty table in which the cleanup of one registration removes another |
| WaiterRuns.HandedOutOnce | src/client.rs:1334-1393 | over any run of a new table, what is handed out is the waiter last registered under that id, as registered, and no registration is handed out twice |
| WaiterRuns.SurvivesExactlyOneSweep | src/client.rs:1279-1285 | a phash waiter left alone survives a number of sweeps exactly if that is at most one, or it was stamped at the epoch wrap; other waiters are never swept |
| WaiterRuns.EpochsStayFresh | src/client.rs:1395-1416 | over fewer than 2^64 sweeps every phash waiter is of the current epoch or the one before |
| NodeWaiters.NodeWaiterList.CountWaiter | src/client/accessors.rs:811 | before it takes the lock, a registration is counted |
| NodeWaiters.NodeWaiterList.PushWaiter | src/client/accessors.rs:812-816 | under the lock its waiter is appended |
| NodeWaiters.NodeWaiterList.WaitForNode | src/client/accessors.rs:806-818 | whatever resolve passes run between the two, the waiter ends up last in the list and the counter was positive all along |
| NodeWaiters.NodeWaiterList.SwapRemove | src/client.rs:339-345 | removes one waiter, keeps those before it, and loses none of the rest |
| NodeWaiters.NodeWaiterList.RemoveAt | src/client.rs:338-344 | the waiter leaves the list in one moment and is uncounted in the next |
| NodeWaiters.ZeroMeansNobodyWaits | src/client/node_io.rs:608-610 | a lock-free reader that meets zero misses no listed waiter and no registration under way |
| NodeWaiters.NodeWaiterList.ResolveWaiters | src/client.rs:328-350 | as multisets: serves each live matching waiter once, keeps precisely the live non-matching ones; the counter stays exact and each waiter is examined once |
| NodeWaiters.ResolvedExactly | src/client.rs:338-349 | no cancelled waiter is served or kept, no live one lost or doubled, and a live one is served exactly if it matches |
| NodeWaiters.MatchesByAttribute | src/client.rs:289-316 | a filter matches by tag, and each attribute added to it must be there with its value |
| Backoff.FibonacciBackoff | src/client.rs:2485-2517 | the delay is min(1000 * Fib(n + 1), 900000) ms plus the drawn jitter, within a tenth either way |
| Backoff.ScheduleIsFibonacci | src/client.rs:2480-2500 | one second twice, then each delay is the sum of the two before it, up to 900 seconds |
| Backoff.BaseMonotone | src/client.rs:2480-2484 | delays never shrink with the attempt number |
| Backoff.CapReached | src/client.rs:2463-2471 | the cap is reached exactly from attempt 15 on |
| Backoff.SaturationInvisible | src/client.rs:2472-2478 | the failure counter is min(n, 64), and saturating it never changes a delay |
| Quarantine.TokenBucket.TryTake | examples/retry_quarantine.rs:53-66 | one call on a bucket is the step the bounds are proved about |
| Quarantine.BucketAccount | examples/retry_quarantine.rs:53-66 | over any calls, admitted + held <= held before + earned, and tokens stay within 0 and burst |
| Quarantine.BucketConserves | examples/retry_quarantine.rs:53-66 | over any calls, admitted + held = held before + earned - what ran over the burst |
| Quarantine.FullBurstAdmitted | examples/retry_quarantine.rs:58-65 | once held and earned tokens reach the burst, the next `burst` calls at that instant are all admitted and the one after is refused |
| Quarantine.DayEarnsRefill | examples/retry_quarantine.rs:83-91 | a day earns exactly the daily refill |
| Quarantine.BucketBound | examples/retry_quarantine.rs:53-66 | admissions <= burst + refill * the clock's forward steps, in any order of instants |
| Quarantine.ForwardIsElapsed | examples/retry_quarantine.rs:53-59 | forward steps are the elapsed time exactly when the clock never goes back |
| Quarantine.MonotoneBound | examples/retry_quarantine.rs:11-15 | with a clock that never goes back, admissions <= burst + refill * elapsed |
| Quarantine.SampledDrains | examples/retry_quarantine.rs:53-66 | on any clock, a pair that calls often enough is admitted all it earns but a fraction of a token, so the forward-step bound is met |
| Quarantine.ElapsedBoundsIffMonotone | examples/retry_quarantine.rs:99-118 | for all configurations and numbers of calls, the elapsed time bounds the admissions on exactly the clocks that never go back |
| Quarantine.OutOfOrderExceedsElapsed | examples/retry_quarantine.rs:99-118 | for any step back, three calls around it admit two on a burst of one within no time |
| Quarantine.QuietPairRecovers | examples/retry_quarantine.rs:14-15 | a pair quiet for one refill period is admitted again |
| Quarantine.RetryQuarantine.constructor | examples/retry_quarantine.rs:83-91 | a new quarantine tracks no pair and refills at the daily rate |
| Quarantine.RetryQuarantine.AdmitCall | examples/retry_quarantine.rs:99-126 | one call on the map of bucket objects is the map step, touching one bucket only |
| QuarantineRuns.MapRefinesBuckets | examples/retry_quarantine.rs:99-126 | over any interleaving from any state a tracked pair is judged as by a single bucket run on its calls alone; an untracked pair is always admitted |
| QuarantineRuns.TrackedSetGrows | examples/retry_quarantine.rs:110-117 | pairs are never forgotten and the cap is kept |
| QuarantineRuns.CapAndRefusals | examples/retry_quarantine.rs:112-124 | at most max_pairs pairs are tracked, and the total counts the refused calls modulo 2^64 |
| QuarantineRuns.ZeroBurstDisables | examples/retry_quarantine.rs:101-103 | a burst of zero admits everything and tracks nothing |
| QuarantineRuns.PairBound | examples/retry_quarantine.rs:99-126 | in any window of any history a tracked pair's admissions are at most its burst plus the refill over the forward steps of its own calls' clock |
| QuarantineRuns.WindowVerdicts | examples/retry_quarantine.rs:99-126 | a window judged from the state before it gets the verdicts of the whole history |
| ArchiveFormat.Sanitize | examples/durability_hook.rs:129-135 | a preview's tabs and newlines become spaces and every other character stays |
| ArchiveFormat.LineRoundTrip | examples/durability_hook.rs:61-69 | a printed record splits back into its four fields and parses to its key |
| ArchiveFormat.RecoveredIffClean | examples/durability_hook.rs:129-136 | a record's key is recovered exactly when its fields hold no tab and no newline |
| ArchiveFormat.ThreeFieldsMakeRecord | examples/durability_hook.rs:64-69 | a line of exactly three fields is a record |
| ArchiveFormat.MoreFieldsMakeRecord | examples/durability_hook.rs:64-69 | so is one of three fields and any rest, tabs included |
| ArchiveFormat.TooFewFields | examples/durability_hook.rs:64-69 | a line of one or two fields is none |
| ArchiveFormat.ParseConcat | examples/durability_hook.rs:56-70 | after whole lines, parsing goes on independently |
| ArchiveFormat.TornCommitsNothing | examples/durability_hook.rs:57-63 | a line without its newline yields no key |
| ArchiveFormat.AppendRoundTrip | examples/durability_hook.rs:56-70 | records appended at a boundary parse to exactly their keys, torn tail or not |
| ArchiveFormat.CutRecovery | examples/durability_hook.rs:57-63 | cut between two characters of an append, parsing recovers exactly the records before the cut |
| ArchiveFormat.AppendSafeIffBoundary | examples/durability_hook.rs:79-83 | as text: appending recovers its record for every clean key exactly when the content ends at a record boundary |
| Utf8.RoundTrip | examples/durability_hook.rs:151 | written text reads back as itself |
| Utf8.Rfc3629Examples | examples/durability_hook.rs:151 | characters of every width have the encodings of RFC 3629 |
| Utf8.DecodeExact | examples/durability_hook.rs:54 | whatever reads as text is exactly that text's encoding: no overlong form, surrogate or truncated character passes |
| Utf8.DecodeJoin | examples/durability_hook.rs:54 | where a character starts, the bytes on both sides read independently, and a side that does not read spoils both |
| Utf8.DecodeCut | examples/durability_hook.rs:54 | a prefix of a text's bytes reads exactly if it ends at a character boundary, and as the characters whole in it |
| ArchiveFile.CrashRecovery | examples/durability_hook.rs:54-77 | however many bytes of an append reached the disk, the archive opens exactly if they end at a character boundary, and then with exactly the records that reached the disk whole |
| ArchiveFile.TornCharacterBlocksOpen | examples/durability_hook.rs:54-77 | stopped inside any character beyond ASCII, an append makes an archive that opened before fail to open |
| ArchiveFile.TornAccentBlocksOpen | examples/durability_hook.rs:54-77 | a literal file that fails so |
| ArchiveFile.UnreadableForever | examples/durability_hook.rs:74-83 | no later append, whole or partial, makes an unreadable archive readable |
| ArchiveFile.AppendSafeIffWhole | examples/durability_hook.rs:79-83 | appending recovers its record for every clean key exactly when the file reads as whole records |
| ArchiveFile.AppendWhole | examples/durability_hook.rs:149-153 | whole records appended to whole records are recovered behind them |
| ArchiveFile.PrefixReads | examples/durability_hook.rs:54-70 | behind a readable part a file opens exactly if the rest reads, and with no key of that part missing |
| InboxArchive.FreshRecordsExact | examples/durability_hook.rs:117-138 | the records of a batch are duplicate-free and cover exactly its uncommitted keys |
| InboxArchive.FreshRecordsFirst | examples/durability_hook.rs:117-138 | each record is the first message of its key |
| InboxArchive.Seed | examples/durability_hook.rs:56-71 | the loop collects exactly the keys of the complete records |
| InboxArchive.InboxArchiver.Open | examples/durability_hook.rs:47-94 | the dedup set is seeded from the file, whatever part of it is synced |
| InboxArchive.OpenArchive | examples/durability_hook.rs:54-78 | a missing archive is a fresh start; any other read error, and bytes that are not UTF-8, fail |
| InboxArchive.FreshArchived | examples/durability_hook.rs:117-138 | what is written is one line per first message of an uncommitted key, in batch order: its chat, sender, id, and its text character by character with tabs and newlines as spaces, or `<non-text>` |
| InboxArchive.InboxArchiver.Prepare | examples/durability_hook.rs:106-139 | the loop produces exactly those lines, and their keys |
| InboxArchive.InboxArchiver.Commit | examples/durability_hook.rs:149-155 | Ok only after write and sync; an error may leave any bytes of the lines behind |
| InboxArchive.InboxArchiver.OnMessages | examples/durability_hook.rs:98-168 | each call is a step of the runs below; Ok means the batch's keys are known and its new messages are in the file as lines of their own; from whole records that hold every known key it leaves them so, and in synced bytes if anything was written or they were before; an error acknowledges nothing |
| InboxArchive.CommitReads | examples/durability_hook.rs:142-167 | a commit to whole records keeps them whole, loses nothing, and leaves all known keys in synced bytes if it wrote |
| InboxArchive.ErrorFreeRuns | examples/durability_hook.rs:106-167 | over any batches a restart rebuilds the dedup set, nothing is lost and no key is appended twice |
| InboxArchive.AcknowledgedSurvives | examples/durability_hook.rs:1-16 | over any run of batches, failed writes and syncs, crashes and restarts whose writes go behind whole records, and whose known batches are acknowledged after a write or were synced at the opening: a crash leaves an archive that opens exactly if its unsynced bytes are UTF-8, and then with every key ever acknowledged |
| InboxArchive.RunKnown | examples/durability_hook.rs:47-167 | a write makes every known key durable, failed calls and known batches leave the synced bytes, and only a restart can leave a known key unsynced |
| InboxArchive.KnownIsDurableIff | examples/durability_hook.rs:123-141 | over every run whose writes go behind whole records, a known batch reads from the synced bytes exactly if the running process has written, or opened the file with the batch synced |
| InboxArchive.UnsyncedAcknowledged | examples/durability_hook.rs:123-141 | a run from an empty archive, a failed sync, a restart and a redelivery, in which the message is acknowledged and a crash loses it |
| InboxArchive.TornLineSwallows | examples/durability_hook.rs:149-155 | a run from an empty archive, a failed write that leaves fewer characters than the next message's chat has, and that message written and synced, in which the archive opens without the acknowledged key |

## Left out

- Time in `FlushScope::flush`: the deadline is a choice to expire in some round, and the number of rounds is given.
- `FlushScope::spawn` and the runtime: a spawned task is a guard that is dropped at some point.
- Memory orderings weaker than sequential consistency, and 32-bit words.
- The conversions of a request error into the two public error types, and the error-chain walk: field copying.
- AES, HMAC, SHA and HTTP: a response carries its plaintext chunks and a verdict.
- MediaSink.WriteChunks: models the `write_all` calls of the decryption loop, not the decryption, padding and hashing between them.
- Overflow of the stream-waiter counter, which would take 2^64 entries.
- Concurrent `on_messages` calls; the archive is opened and appended by one caller at a time.
- `f64` rounding in the token bucket, and the 32-bit width of its burst and daily refill.
- App-state sync, handshakes, session lifecycle, caches, bot plumbing and media builders: outside these five pieces.
