# A verified model of the platform's algorithms and protocols

This project models, in Dafny, the self-contained algorithms and the concurrent protocols of the agent
platform, and proves what they keep. `dafny verify dfyconfig.toml` checks all of it.

| files | what they model |
|---|---|
| `EditDistance`, `Similarity`, `Lines`, `Matcher`, `Stages`, `Prefiltering`, `Splice` | the edit matcher: the two-row distance table with its cutoffs, the cascade of searches, offsets rebuilt from line lengths, the hash prefilter, and the splice into the raw file |
| `Recency`, `CacheContents`, `LruCache` | the linked-list LRU cache that the Slack, Discord and voice bots share, against an abstract cache ordered by last use |
| `CycleCheck`, `TaskTable`, `DelegationRuns`, `DelegationLimits` | delegation: the cycle check, the statements on its table, every interleaving of agents, workers and users over it, and exactly where its guarantees end |
| `Poller`, `PollAlone`, `PollerStop`, `ScheduleClaims` | the poll loop with its semaphore, shared by the issue pipeline and the scheduler, what one poll gets started, stopping it, and the compare-and-swap claim of a schedule |
| `TokenBucket`, `SlidingLog` | the conversation manager's and the webhook router's rate limits |
| `Hub`, `HubRuns`, `HubOrder` | the stream relay's subscriptions, its lossy sends as interleaved steps, and the order of delivery |
| `Batches`, `Persist` | the relay's INSERT statements, its workers, and the sharded pipeline in front of them |
| `Ids`, `DiffParser`, `Coverage` | time-ordered identifiers, the unified-diff parser, and coverage counting |

`Common` holds what several of these share.

Code that updates variables, arrays, maps or linked nodes is modelled by methods and classes, each proved
against a function of its inputs or of the old state; what the code promises is then proved about that
function. Protocols are state machines: a `State`, an `Event`, a relation `Next` with one event for one
atomic operation (a read or write of an atomic variable, a channel operation, a section under a lock, an SQL statement), and
theorems over all runs. Floating-point ratios are reals.

Some natural claims are false of the code. For each there is an input or a run that shows it, and the
exact condition under which the claim holds:

- The length cutoff of the similarity ratio (`apply.go:164-176`) is not a lower bound: it rejects a pair
  whose ratio is 6/7 at threshold 0.85 (`LengthCutoffRejectsGoodPair`). For thresholds above one half, and
  only for those, the ratio is 1 for equal lines and 0 for all others (`CollapseIff`).
- Offsets of normalized and fuzzy matches count bytes of the normalized file but cut the raw one
  (`apply.go:211,221,322,376-377`; `TrailingBlankMisplacesEdit`). A file is safe, whatever is searched in
  it, exactly when normalizing drops nothing before the length that it leaves (`AllFaithfulIff`).
- FindMatch panics on an empty file and an empty search (`EmptySearchPanics`), and altogether exactly when
  the file is blanks on one line, every line of the search is white space, and the search is not found
  exactly once in the file as it is (`PanicIff`).
- The hash prefilter can lose the only match (`PrefilterCanLoseMatch`). It can change the answer exactly
  when the only fitting window has ten rivals that overlap no less, or one of several fitting windows can
  be among the ten without the others (`PrefilterDiffersIff`).
- Delegation can deadlock (`UnknownBlockerDeadlocks`, `OtherUsersBlockerDeadlocks`): nothing is under way,
  something is pending, and no step is possible until somebody enqueues or cancels (`DeadlockLasts`). Where
  all other enqueues, before and after, have only live rows of the same user as blockers, one more makes
  this possible exactly when one of its own is not such a row at that time: unknown, of another user, or
  ended and resolved (`EnqueueCanDeadlockIff`).
- What was cancelled can become running, since status writes are unguarded (`CancelledTaskCanRun`); what
  has ended can become active again exactly while a worker has claimed it and not yet marked it running
  (`RevivesIff`).
- The scheduler's Stop does not wait for a poll in progress, so work can start after it returned
  (`StopCanMissAPoll`): exactly when some call of poll has a claimed row and a slot to take or a worker to
  start when Stop returns (`StartsAfterReturnIff`). Before Stop has cancelled the context of the calls, a
  call that has passed its test of the flag and still has a pending row to claim can start work too
  (`StartsAfterStopIff`). A Stop that has waited for its poller leaves nothing behind
  (`WaitingStopDrains`).
- Two publishers of one session can deliver out of order (`TwoPublishersCanReorder`). Publishes that do not
  overlap are delivered in order (`DeliveredInOrder`), and beginning one makes disorder possible exactly
  when another is still to be sent to the subscriber that it takes in (`BeginCanReorderIff`).
- An added line that begins with `++ b/` is taken for a file header by the diff parser
  (`ContentCanTakePath`); the header's path is kept exactly when there is no such
  line, or the last such line names the same path (`PathIs`).
- A file with two lcov records, the second fully covered, keeps the uncovered lines of the first
  (`SecondRecordDisagrees`, `LcovCountsAgreeIff`); an uncovered block of a Go profile that runs backward
  spoils the totals (`BackwardBlockDisagrees`, `GoCountsAgreeIff`).

## Model

| member | source | states |
|---|---|---|
| EditDistance.ShortestScript | bot/orchestrator/engine/apply.go:144-158 | the table's recurrence, which on equal bytes takes the diagonal only, is reached by an edit script of that length |
| EditDistance.NoShorterScript | bot/orchestrator/engine/apply.go:144-158 | no script of insertions, deletions and substitutions is shorter than the recurrence |
| EditDistance.LevIsDistance | bot/orchestrator/engine/apply.go:144-158 | the recurrence is the minimum length of an edit script from a to b |
| EditDistance.DistanceIsLev | bot/orchestrator/engine/apply.go:144-158 | that minimum is unique: whatever is the edit distance is the recurrence |
| EditDistance.LevLipschitz | bot/orchestrator/engine/apply.go:144-158 | neighbouring cells differ by at most one, which makes the diagonal alone optimal on a match |
| Similarity.ComputeRow | bot/orchestrator/engine/apply.go:140-158 | one pass of the inner loop turns the row of i - 1 bytes into the row of i bytes and returns its minimum |
| Similarity.LevenshteinRatio | bot/orchestrator/engine/apply.go:92-185 | the returned ratio: 1 for equal texts, 0 for an empty one or when a cutoff fires, and else exactly 1 - distance / length of the longer |
| Similarity.RowsGrow | bot/orchestrator/engine/apply.go:142-158 | the minimum of a row bounds every cell of the next row from below |
| Similarity.RowMinMonotone | bot/orchestrator/engine/apply.go:142-162 | row minima never decrease down the table |
| Similarity.RowCutoffSound | bot/orchestrator/engine/apply.go:109-162 | when the row cutoff fires, at any row, the true distance exceeds 15% of the longer text and the true ratio is below 0.85 |
| Similarity.RatioIs | bot/orchestrator/engine/apply.go:92-185 | the result for two different texts that are not empty, in their lengths and edit distances alone: 0 when all entries of the last row exceed 15% of the longer length or when gap and rows left fall below the threshold, and else 1 - distance / length of the longer |
| Similarity.LengthCutoffRejectsGoodPair | bot/orchestrator/engine/apply.go:164-176 | the length cutoff returns 0 at threshold 0.85 for a pair whose true ratio is above 0.85 |
| Similarity.RatioNeverOverstates | bot/orchestrator/engine/apply.go:92-185 | the result is 0 or the true ratio, and is 1 only for equal texts |
| Similarity.RatioExactIff | bot/orchestrator/engine/apply.go:109-184 | exactly when the result is the true ratio, in terms of the two cutoffs |
| Similarity.CollapseIff | bot/orchestrator/engine/apply.go:164-176 | the collapse to equality holds for all pairs of texts if and only if the threshold is above 0.5 |
| Lines.NormalizeLines | bot/orchestrator/engine/apply.go:63-74 | the loop over the lines computes the normalized text |
| Lines.NormalizeKeeps | bot/orchestrator/engine/apply.go:63-74 | normalizing drops exactly the blanks that run to the end of a line and keeps every other byte in order |
| Lines.LineEnd | bot/orchestrator/engine/apply.go:63-74 | at the end of a line a blank, a tab or a carriage return is dropped, and no other byte is |
| Lines.KeptPrefixIff | bot/orchestrator/engine/apply.go:63-74 | the normalized and the raw text agree up to an offset exactly when nothing before it is dropped |
| Lines.StripBlankEdges | bot/orchestrator/engine/apply.go:76-90 | the two loops compute the text without its leading and trailing blank lines |
| Lines.SpaceWidthIs | bot/orchestrator/engine/apply.go:76-90 | the white space of a blank line is that of the Unicode code points, in their UTF-8 bytes |
| Lines.CoreIsCore | bot/orchestrator/engine/apply.go:76-90 | what is left begins and ends with a line that is not blank, and only blank lines were removed |
| Lines.CoreUnique | bot/orchestrator/engine/apply.go:76-90 | only one stretch of lines has that property |
| Lines.BlockAtOffset | bot/orchestrator/engine/apply.go:313-321 | the offset summed from line lengths is where the joined lines of a window occur in the joined file |
| Lines.JoinSplit | bot/orchestrator/engine/apply.go:64-73 | joining the lines of a text gives the text back |
| Lines.SplitJoin | bot/orchestrator/engine/apply.go:64-73 | splitting joined lines gives the lines back |
| Matcher.FindOnce | bot/orchestrator/engine/apply.go:196-224 | the two index searches find an occurrence exactly when it is the only one, overlapping ones included, and slice out of range exactly when both texts are empty |
| Matcher.SecondSearch | bot/orchestrator/engine/apply.go:198-202 | searching again from one past the first hit fails exactly when the hit is the only occurrence |
| Matcher.WindowFits | bot/orchestrator/engine/apply.go:288-299 | a window is accepted exactly when at least 85% of its lines equal the search's lines |
| Matcher.ComputeLineHash | bot/orchestrator/engine/apply.go:187-193 | the loop computes the 32-bit wrapping polynomial hash of the line |
| Matcher.FittingSurvives | bot/orchestrator/engine/apply.go:249-271 | a window that fits always passes the hash prefilter |
| Matcher.Prefilter | bot/orchestrator/engine/apply.go:249-271 | the candidates are exactly the windows with at least half as many lines of a searched hash as the search has hashes, each once, with their scores |
| Matcher.LargeFileCandidates | bot/orchestrator/engine/apply.go:249-279 | of the surviving windows at most ten are kept, and none that is dropped scores above one that is kept |
| Matcher.SmallFileCandidates | bot/orchestrator/engine/apply.go:280-285 | in files of up to 500 lines every window is a candidate |
| Matcher.PickWindow | bot/orchestrator/engine/apply.go:287-311 | the loop yields a candidate exactly when it is the only one that fits |
| Matcher.FuzzyMatch | bot/orchestrator/engine/apply.go:249-323 | the fuzzy stage yields the span of the only fitting candidate, or no match |
| Matcher.FindMatch | bot/orchestrator/engine/apply.go:195-323 | the result is an outcome that the specification of the cascade allows, on every input |
| Stages.FindMatchStages | bot/orchestrator/engine/apply.go:195-323 | the answer is exact when the search occurs exactly once in a non-empty file; else normalized when the normalized search, or failing that its core, occurs exactly once in the non-empty normalized file; else nothing beyond the limits on lines, and within them the lines of the only candidate that is mostly equal, or nothing when no candidate is; an empty core in an empty normalized file panics |
| Stages.FitsIff | bot/orchestrator/engine/apply.go:288-299 | a window fits when at least 85 of 100 of its lines are equal to the search's, counted as places |
| Stages.HashIsPolynomial | bot/orchestrator/engine/apply.go:187-193 | the hash is the number that the bytes spell to the base 31, in its lowest 32 bits |
| Stages.CandidatesAre | bot/orchestrator/engine/apply.go:249-285 | up to 500 lines every window is a candidate; above that, of the windows that share half as many lines as the search has hashes, all or ten, and no other has a higher score |
| Splice.ApplyEdit | bot/orchestrator/engine/apply.go:369-378 | an edit replaces the matched span of the raw file and leaves all text before and after it, or fails |
| Splice.FuzzySpan | bot/orchestrator/engine/apply.go:311-322 | a fuzzy span lies in the normalized file and is exactly the joined lines of a fitting window |
| Splice.SpanText | bot/orchestrator/engine/apply.go:195-322 | what a match of each kind spans in its own text: the only occurrence of the search, or a fitting block |
| Splice.SpanInBounds | bot/orchestrator/engine/apply.go:195-378 | spans always lie within the raw file, so the splice never slices out of range |
| Splice.SpanFaithfulIff | bot/orchestrator/engine/apply.go:204-221 | one normalized or fuzzy span means the same place in the raw file exactly when no trailing blank lies before its end |
| Splice.AllFaithfulIff | bot/orchestrator/engine/apply.go:204-378 | a condition on the file alone: all spans, for all searches, mean the same place in the raw file if and only if normalizing drops nothing before the length that it leaves |
| Splice.CleanFileEdit | bot/orchestrator/engine/apply.go:195-378 | in a file without trailing blanks the text cut out is the only occurrence of the search, or the block of lines that fits |
| Splice.TrailingBlankMisplacesEdit | bot/orchestrator/engine/apply.go:376-378 | with a trailing blank in the file the edit goes into the wrong place |
| Splice.PanicIff | bot/orchestrator/engine/apply.go:196-221 | on the raw texts: the search panics if and only if the file is blanks on one line, every line of the search is white space, and the search is not found exactly once in a non-empty file |
| Splice.EmptySearchPanics | bot/orchestrator/engine/apply.go:196-221 | the empty search in the empty file panics |
| Prefiltering.PrefilterAgrees | bot/orchestrator/engine/apply.go:249-307 | with at most ten surviving windows, or at most 500 lines, the filtered scan and the scan of all windows have the same outcome, for any order of ties |
| Prefiltering.PrefilterDiffersIff | bot/orchestrator/engine/apply.go:249-307 | for a file over 500 lines, from file and search alone: some order of ties makes the two scans differ if and only if the only fitting window has ten rivals that overlap no less, or several windows fit and one has a place among ten rivals that overlap no less than the rest; never when no window fits |
| Prefiltering.PrefilterCanLoseMatch | bot/orchestrator/engine/apply.go:273-279 | a file of 501 lines in which ten decoys crowd out the only match |
| Recency.SectionOrder | bot/slack/app.go:627-670 | every locked section leaves the used key in front of the others in their old order, keeps list and maps in step, and never exceeds the cap |
| Recency.OrderedByLastUse | bot/slack/app.go:152-240 | over any run of sections, list and map hold the same keys without duplicates, at most the cap, ordered by last use |
| CacheContents.SectionEntries | bot/slack/app.go:627-670 | what each section leaves in the cache: a hit all, a failed check all but its key, a sweep what has not expired, a store below the cap all and the new entry, and at the cap all but the last key of the order, unless a fresh entry was kept |
| CacheContents.EntryStaysIff | bot/slack/app.go:627-670 | one section leaves an entry as it is if and only if it does not replace, forget or sweep it or evict its key at the cap |
| CacheContents.StoredStays | bot/slack/app.go:152-240 | over any run of sections, a stored entry is there with its value until one of these happens |
| Recency.EvictsOldest | bot/slack/app.go:232-240 | an eviction removes one key, last used before every key it leaves |
| Recency.TrimEvict | bot/voice/handler.go:103-109 | evicting one by one above the cap keeps the most recently used keys |
| LruCache.WorkspaceCache.constructor | bot/slack/app.go:86-121 | a new cache is empty and its list, node map and value map agree |
| LruCache.WorkspaceCache.Unlink | bot/slack/app.go:193-201 | relinking the neighbours and ends takes the node, and no other, out of the forward and the backward list |
| LruCache.WorkspaceCache.PushFront | bot/slack/app.go:176-185 | linking a node at the head puts it first and keeps the rest |
| LruCache.WorkspaceCache.MoveLRUToFront | bot/slack/app.go:188-208 | a known key becomes first, others keep their order; an unknown key changes nothing |
| LruCache.WorkspaceCache.AddLRUNode | bot/slack/app.go:169-186 | the key is first, whether or not it was there before, and is there once |
| LruCache.WorkspaceCache.RemoveLRUNode | bot/slack/app.go:210-230 | the key leaves list and node map, and nothing else changes |
| LruCache.WorkspaceCache.EvictLRU | bot/slack/app.go:232-240 | the last key leaves list, node map and value map; an empty cache stays empty |
| LruCache.WorkspaceCache.HitSection | bot/slack/app.go:632-641 | a hit moves its key to the front in the linked structure as in the abstract cache |
| LruCache.WorkspaceCache.ForgetSection | bot/slack/app.go:643-648 | a failed check removes the key everywhere |
| LruCache.WorkspaceCache.InsertSection | bot/slack/app.go:650-669 | a store evicts at the cap before it adds; an entry still fresh is touched and kept instead |
| LruCache.WorkspaceCache.SweepExpired | bot/slack/app.go:152-167 | exactly the expired keys leave, for every order in which the map yields them |
| LruCache.WorkspaceCache.EnforceMax | bot/voice/handler.go:103-109 | the loop ends and leaves the most recently used keys up to the cap |
| LruCache.WorkspaceCache.SweepSection | bot/voice/handler.go:95-110 | sweep and enforcement together do what the abstract sweep does; without enforcement this is the Discord copy |
| CycleCheck.LastEntryWins | bot/delegation/validator.go:234-237 | of repeated entries for one id the last one counts |
| CycleCheck.WalkDescends | bot/delegation/validator.go:242-263 | along a walk from a scheduled task every later task stands earlier in the schedule |
| CycleCheck.ScheduleHasNoCycle | bot/delegation/validator.go:242-263 | nothing that can be scheduled after all it waits for reaches a cycle |
| CycleCheck.Enter | bot/delegation/validator.go:243-249 | entering a new node keeps the search's invariant; meeting a node on the stack closes a cycle |
| CycleCheck.Leave | bot/delegation/validator.go:258-259 | leaving a node whose dependencies are all finished extends the schedule by it |
| CycleCheck.Search.HasCycle | bot/delegation/validator.go:242-261 | the recursive search ends; a yes comes with a cycle reachable from the root, a no with a schedule that holds the node |
| CycleCheck.DetectCyclesInBlockedBy | bot/delegation/validator.go:231-266 | the answer is yes if and only if some walk over blocked_by and the existing tasks leads from the new task to a cycle, and no if and only if the task can be scheduled |
| CycleCheck.EdgesAre | bot/delegation/validator.go:231-237 | the new id waits for its blocked_by, also when it is in the list already; any other waits for what its last entry says, and an id without entry for nothing |
| CycleCheck.CyclesAre | bot/delegation/validator.go:231-266 | a cycle is reached if and only if there is a walk over these lists from the new id that comes back to one of its tasks |
| CycleCheck.SelfBlocked | bot/delegation/validator.go:242-249 | a task blocked by itself is such a walk |
| TaskTable.Tasks.EnqueueTask | bot/delegation/scheduler.go:29-69 | a row is added with the blockers as given, if the user has fewer than 100 active rows; else nothing changes |
| TaskTable.Tasks.ResolveDependencies | bot/delegation/scheduler.go:71-84 | the ended id leaves the blocker lists of the same user's pending rows, and only those |
| TaskTable.Tasks.UpdateStatus | go-shared/delegated_tasks.go:308-354 | the status is overwritten whatever it was, for the owner's row only |
| TaskTable.Tasks.ClaimNextTask | go-shared/delegated_tasks.go:549-628 | the claimed row is of that agent and pending, its existing blockers are done, and no other such row has a higher priority or the same and is older; nothing is claimed if and only if there is no such row |
| TaskTable.Tasks.OnTaskComplete | bot/delegation/delegation.go:195-231 | the row is done, and no pending row of its user waits for it any more |
| TaskTable.Tasks.OnTaskFailed | bot/delegation/delegation.go:233-274 | the row has failed, and its dependents are released all the same |
| TaskTable.Tasks.CancelTask | bot/delegation/scheduler.go:86-126 | only an active row is cancelled, and its dependents are released |
| DelegationRuns.UnresolvedEnded | bot/delegation/delegation.go:195-274 | whatever is resolved was done, failed or cancelled at some earlier step |
| DelegationRuns.BlockersListedOrEnded | bot/delegation/scheduler.go:71-84 | over every run, each original blocker is still listed or has ended |
| DelegationRuns.ListedIff | bot/delegation/scheduler.go:71-84 | while a row is pending, an original blocker is still listed if and only if it was never resolved for the row's user since the enqueue |
| DelegationRuns.DependencySafety | go-shared/delegated_tasks.go:549-575 | when a row is claimed, each of its original existing blockers has been done, failed or cancelled before |
| DelegationRuns.ClaimedOnce | go-shared/delegated_tasks.go:549-575 | nothing is claimed twice, over all runs |
| DelegationRuns.ClaimedIsReady | go-shared/delegated_tasks.go:549-575 | over every run, a claim takes a pending row of its own agent whose existing blockers are done, and changes its status only |
| DelegationRuns.ClaimOrder | go-shared/delegated_tasks.go:559-575 | every claim takes the highest priority, and then the oldest, of all pending rows of its agent whose existing blockers are done |
| DelegationRuns.RunBlockersLive | bot/delegation/scheduler.go:29-126 | if blockers are live rows of the same user at enqueue, what a pending row waits for stays live |
| DelegationRuns.DeadlockFree | bot/delegation/worker.go:117-182 | then, with everything resolved and nothing claimed or running, if anything is pending the poll selects an agent and a claim for it succeeds |
| DelegationLimits.EnqueueCanDeadlockIff | bot/delegation/scheduler.go:29-126 | at an enqueue, when all enqueues before and after are good: further steps can reach a deadlock if and only if some blocker is not then a live row of the same user, live being active, about to be resolved, or about to be overwritten by a cancellation |
| DelegationLimits.DeadlockLasts | bot/delegation/worker.go:117-182 | in a deadlock no step at all is possible until somebody enqueues or cancels |
| DelegationLimits.UnknownBlockerDeadlocks | bot/delegation/scheduler.go:29-69 | a row behind an unknown id, with nothing else in the table, is a deadlock |
| DelegationLimits.OtherUsersBlockerDeadlocks | bot/delegation/scheduler.go:71-84 | so is a row behind another user's, which was active at the enqueue and is now done |
| DelegationLimits.RevivesIff | bot/delegation/worker.go:339-341 | what has ended can become active again if and only if a worker has claimed it and has not yet marked it running, which it does once for each claim |
| DelegationLimits.EndedIsFinal | go-shared/delegated_tasks.go:308-354 | what has ended, is in no worker's hands and is not being cancelled keeps its status for ever |
| DelegationLimits.CancelledTaskCanRun | bot/delegation/worker.go:339-341 | a run in which a cancelled row becomes running |
| Poller.RunInv | bot/issue_pipeline/pipeline.go:106-187 | in every state of every run at most one call is inside poll, exactly while the flag is up; the counter and the held slots account for the workers; and what a call may still start fits beside what runs |
| Poller.ConcurrencyBounded | bot/issue_pipeline/pipeline.go:106-187 | executing workers, held slots and the counter never exceed the maximum, and the branch that fails to acquire a slot is never taken |
| Poller.LoopProgress | bot/issue_pipeline/pipeline.go:134-164 | in its loop a call keeps its rows and slots, goes on to the next row exactly when one is missed, without a slot, or started, and leaves only after a stop or when rows or slots are used up |
| Poller.NoneSkipped | bot/issue_pipeline/pipeline.go:134-164 | over any run, no row that a call has found is passed over |
| PollAlone.PollStartsAll | bot/issue_pipeline/pipeline.go:106-164 | from any state of any run in which no call is inside poll, a call can by its own steps start all the pending rows that it finds, as many as the maximum leaves room for, claims exactly these, and ends |
| Poller.NeverPendingAgain | bot/issue_pipeline/pipeline.go:167-187 | a pipeline that has left pending never returns to it |
| Poller.ClaimedOnce | bot/issue_pipeline/pipeline.go:167-187 | a pipeline goes from pending to running at most once, whichever of any number of pollers race for it |
| PollerStop.StartsAfterStopIff | bot/issue_pipeline/pipeline.go:84-164 | once the flag is up a worker can still be started if and only if some call of poll has passed its test of the flag and is about to take its slot, to start its worker, or, before the context is cancelled, to claim a row still pending |
| PollerStop.StartsAfterCancelIff | bot/scheduler/scheduler.go:83-188 | after the cancellation, if and only if some call holds a claim |
| PollerStop.StartsAfterReturnIff | bot/scheduler/scheduler.go:83-101 | after Stop has returned, if and only if some call held a claim when it did |
| PollerStop.StopDrains | bot/issue_pipeline/pipeline.go:84-104 | once the flag is up, there is no such call, and the counter reads 0, nothing executes from then on |
| PollerStop.WaitingStopDrains | bot/issue_pipeline/pipeline.go:84-104 | a Stop that has waited for its poller returns with nothing executing, then or later |
| PollerStop.StopCanMissAPoll | bot/scheduler/scheduler.go:83-101 | a run in which a call claims a row, Stop raises the flag, cancels, reads 0 and returns, and the call then takes its slot and starts work |
| ScheduleClaims.StaysMoved | bot/scheduler/scheduler.go:166-188 | once a due time was won it is gone from the row until somebody writes it back |
| ScheduleClaims.DueTimeWonOnce | bot/scheduler/scheduler.go:166-188 | a due time is not won twice unless that very time was written back in between |
| ScheduleClaims.WonIff | bot/scheduler/scheduler.go:166-188 | a claim is won if and only if the row still holds the expected time and is active; the row is then due two minutes later, and no other row changes |
| TokenBucket.Manager.CheckRateLimit | bot/conversation/manager.go:155-187 | the user's bucket and the answer after refill and take, and no change for other users |
| TokenBucket.Manager.CleanupRateLimiters | bot/conversation/manager.go:134-153 | exactly the buckets idle for over two minutes go |
| TokenBucket.RateBound | bot/conversation/manager.go:134-187 | in any stretch of a history of any length T at most 20 + T / 3 s, rounded up, messages of a user are allowed |
| TokenBucket.PausedIsAllowed | bot/conversation/manager.go:155-187 | whatever came before, a message is allowed that comes three seconds or more after all others |
| TokenBucket.FreshBurst | bot/conversation/manager.go:155-187 | after a minute without messages, the first 20 of those in the next three seconds are allowed, and no others |
| TokenBucket.CleanupInvisible | bot/conversation/manager.go:134-153 | deleting idle buckets never changes a later answer |
| SlidingLog.IpRateLimiter.Compact | webhook-router/main.go:81-88 | filtering into the slice's own array leaves exactly the timestamps after the window's start, in order |
| SlidingLog.IpRateLimiter.Append | webhook-router/main.go:93 | the log grows by the new timestamp, in place or in a new array |
| SlidingLog.RateLimits.Admit | webhook-router/main.go:74-105 | the address's log is filtered, and grows with the counter exactly when it holds fewer than 15 |
| SlidingLog.RateLimits.CheckRateLimit | webhook-router/main.go:60-105 | the call's answer and new state are those of the specification, with no change to other addresses |
| SlidingLog.RateLimits.CleanupRateLimits | webhook-router/main.go:107-124 | exactly the logs with nothing left in the window are deleted |
| SlidingLog.LogIsExact | webhook-router/main.go:60-124 | whatever calls and clean-ups came before, a log tells exactly how many requests were accepted since any time in the window |
| SlidingLog.AcceptedIff | webhook-router/main.go:60-105 | in terms of the history alone: a request is accepted if and only if fewer than 15 of its address were accepted in the last minute, and either it comes more than 60 s after the counter's window began or fewer than 300 were accepted since |
| SlidingLog.CounterIs | webhook-router/main.go:62-72 | the counter is the number of requests accepted since its window began, and a window begins at the first request more than 60 s after the beginning of the one before |
| SlidingLog.CleanupInvisible | webhook-router/main.go:107-124 | each request is accepted if and only if it would be with no log ever deleted |
| SlidingLog.PerIpBound | webhook-router/main.go:74-105 | any 60 s hold at most 15 accepted requests of an address |
| SlidingLog.CounterCovers | webhook-router/main.go:62-72 | the counter covers all that was accepted since its window began, and one full window more before it |
| SlidingLog.GlobalBound | webhook-router/main.go:62-72 | any 60 s hold at most 600 accepted requests in all |
| Hub.Subscriber.Close | stream-relay/relay/session.go:33-37 | closing any number of times is closing once |
| Hub.Hub.Subscribe | stream-relay/relay/hub.go:33-49 | fails exactly at the connection limit; else one new open subscriber joins its session, the counter stays the number of subscriptions, within the limit, and no session set is empty |
| Hub.Hub.Unsubscribe | stream-relay/relay/hub.go:51-64 | the subscriber leaves the named session and is closed, and the counter stays exact however often and for whatever session it is called |
| Hub.Hub.TotalSubscribers | stream-relay/relay/hub.go:123-131 | summing the session sets gives the connection counter |
| HubRuns.RunInv | stream-relay/relay/hub.go:66-105 | the accounts hold in every state of every interleaving of publishers, subscribers and readers |
| HubRuns.AddressedIs | stream-relay/relay/hub.go:66-73 | a subscriber is addressed once for every publish begun while it was subscribed |
| HubRuns.SendsPlusDrops | stream-relay/relay/hub.go:66-105 | for an open subscriber with no publish under way, data sends plus drops equal the publishes addressed to it |
| HubRuns.RunChannels | stream-relay/relay/hub.go:75-105 | a channel holds at most 256 messages, and what was read and what waits is all the data that was sent, in order |
| HubRuns.DropsWhenFull | stream-relay/relay/hub.go:75-105 | a publish counts a drop only if it met the channel with 256 messages in it |
| HubOrder.DeliveredInOrder | stream-relay/relay/hub.go:66-105 | if publishes to a subscriber do not overlap, what it reads is a subsequence of what was published, in order and without repeats |
| HubOrder.OnePublisherIsApart | stream-relay/relay/hub.go:66-97 | the publishes of one publisher never overlap |
| HubOrder.ReorderIff | stream-relay/relay/hub.go:75-97 | what is under way can reach a subscriber out of order if and only if a publish that can still be sent to it is older than one sent already, or is not the only one; to a closed subscriber only a publish past its test of Done can be sent |
| HubOrder.BeginCanReorderIff | stream-relay/relay/hub.go:66-97 | after publishes that did not overlap, beginning one makes disorder possible if and only if it takes in a subscriber that another is still to be sent to |
| HubOrder.TwoPublishersCanReorder | stream-relay/relay/hub.go:66-97 | a run of two publishers in which the sends are in reverse order |
| Batches.BuildBatchQuery | stream-relay/main.go:202-214 | the loop writes the statement text for so many rows |
| Batches.QueryPlaceholders | stream-relay/main.go:202-214 | reading the text back finds the placeholders 1 to 3 * size, each once and in order |
| Batches.RowLooks | stream-relay/main.go:202-214 | the text of the first and the second row |
| Batches.PrepareQueries | stream-relay/main.go:244-246 | the table holds the text for each of 1 to 50 rows |
| Batches.FlushBatch | stream-relay/main.go:739-758 | a batch of any size becomes one statement for each 50 rows, with text and arguments of its own rows |
| Batches.ChunksKeepAll | stream-relay/main.go:743-757 | the statements of a batch hold each of its jobs once, in order |
| Batches.RowBinds | stream-relay/main.go:202-214 | row i of a statement takes the session, the sequence number and the content of job i, through its placeholders 3i + 1 to 3i + 3 |
| Persist.PersistWorker | stream-relay/main.go:706-737 | on any outcomes of its selects the worker issues the statements of the specification and is left with its batch, flushing at 50, on a tick, and at the end of the drain |
| Persist.WorkTakes | stream-relay/main.go:706-737 | no outcome loses, doubles or reorders what the worker has taken |
| Persist.HandsOverWhen | stream-relay/main.go:706-737 | at a tick, at the 50th job before the stop signal and at the end of the drain all that was taken is handed over and the batch is empty; otherwise nothing is handed over and a job joins the batch |
| Persist.WorkersRun | stream-relay/main.go:706-737 | in any run of the pipeline each worker is where PersistWorker gets on what its selects yielded |
| Persist.Conserved | stream-relay/main.go:698-768 | in every state of every run, a shard's INSERTs, then its batch, then its channel are its accepted jobs in order: each is in exactly one place |
| Persist.DropsCounted | stream-relay/main.go:760-768 | every job offered was accepted or counted as dropped |
| Persist.SessionOrder | stream-relay/main.go:692-768 | the jobs of a session go through one shard only and reach the database in the order they were accepted |
| Persist.RunOk | stream-relay/main.go:698-758 | channels hold at most 1024 jobs, every INSERT has 1 to 50 rows, and a batch stays below 50 until the stop signal |
| Persist.DrainHandsAll | stream-relay/main.go:723-734 | a worker that ends its drain has handed over all that its shard had accepted |
| Ids.CharOfIsAlphabet | go-shared/id.go:10 | the characters of the model are those of the source's alphabet |
| Ids.OrderIsValue | go-shared/id.go:10 | strings of one length over the alphabet are ordered as the numbers they spell |
| Ids.GroupsValue | go-shared/id.go:25-26 | base32 of whole groups spells the same number as the bytes |
| Ids.ClockValue | go-shared/id.go:20-23 | the eight shifted bytes spell the clock, as an unsigned 64-bit number |
| Ids.PrefixValue | go-shared/id.go:25-28 | the first 25 characters of the encoding of 18 bytes spell their first 125 bits |
| Ids.GenerateID | go-shared/id.go:12-29 | an id has 25 characters of the alphabet, which spell the first 125 bits of the clock and the random bytes |
| Ids.IdSpells | go-shared/id.go:12-29 | so does the id as a function of clock and random bytes |
| Ids.TimeOrdered | go-shared/id.go:12-29 | an earlier clock gives a smaller id whatever the random bytes, if and only if the clocks are not on two sides of 1970 |
| Ids.IdDetermines | go-shared/id.go:12-29 | two ids are equal if and only if the clocks and the first 61 random bits are |
| DiffParser.SplitDiffByFile | pr-review/review/parser.go:42-63 | the sections together are the lines of the diff; none is empty, and each but the first opens at its own first line only |
| DiffParser.CollectHunkLines | pr-review/review/parser.go:135-169 | the lines up to the next header, each with its kind, content, position and new-file number |
| DiffParser.ParseDiffFile | pr-review/review/parser.go:65-90 | a section's path, flags and hunks, with positions carried from hunk to hunk |
| DiffParser.ParseDiff | pr-review/review/parser.go:28-40 | the files of the sections that name a path, in order |
| DiffParser.HunkOfHeader | pr-review/review/parser.go:81-87 | there is one hunk for each header, in order, numbered from its own header's start line and holding the lines behind that header |
| DiffParser.KeptIff | pr-review/review/parser.go:28-40 | the files kept are those of sections that name a path |
| DiffParser.KindsAre | pr-review/review/parser.go:135-169 | a plus opens an added line, a minus a removed one, anything else and the empty line are context; the content is what follows the first byte |
| DiffParser.PathBehind | pr-review/review/parser.go:69-73 | a section's path is all that follows `+++ b/` in the last line that opens so |
| DiffParser.BodiesCover | pr-review/review/parser.go:81-87 | the lines before the first header and the hunks' lines are all lines that are no header, each once |
| DiffParser.PositionsCover | pr-review/review/parser.go:65-169 | after the first hunk header each line that is no header is in exactly one hunk, and positions run from 1 to their number across the hunks |
| DiffParser.NumberedOnce | pr-review/review/parser.go:135-169 | in a hunk the new-file numbers are consecutive from the start line, one for each line that is not removed |
| DiffParser.LineToPosition | pr-review/review/parser.go:171-186 | the three loops find the first hit among the lines of the files with the path |
| DiffParser.LinesOfIff | pr-review/review/parser.go:171-186 | the lines looked through are those of the hunks of files with that path, and no others |
| DiffParser.LookupIs | pr-review/review/parser.go:171-186 | in a parsed diff the answer is the position of the first line with the number that is not removed, and 0 if and only if there is none |
| DiffParser.BuildFileContent | pr-review/review/parser.go:212-231 | the loops print the lines of all hunks with their marks |
| DiffParser.PrintAndCollect | pr-review/review/parser.go:135-169 | printing the lines of hunks and collecting them again gives back kinds and contents, and one empty context line more |
| DiffParser.PathIs | pr-review/review/parser.go:69-73 | a section's path is its header's, unless a later line looks like a new-file header: then the last such line gives it |
| DiffParser.ContentCanTakePath | pr-review/review/parser.go:69-73 | an added line can look like one |
| Coverage.CollapseLineRanges | test-gen/testgen/coverage.go:265-290 | the ranges cover exactly the lines and their lengths add up to the number of lines; they are in order, disjoint and maximal if and only if no line is given twice |
| Coverage.ParseGoCoverage | test-gen/testgen/coverage.go:145-241 | totals, covered lines and uncovered lines of each file are those of the blocks before the 501st file |
| Coverage.MissedIff | test-gen/testgen/coverage.go:230-240 | the lines recorded as uncovered for a file are those of its blocks without a positive count |
| Coverage.GoCountsAgreeIff | test-gen/testgen/coverage.go:230-240 | total minus covered is the number of uncovered lines recorded if and only if no uncovered block of the file runs backward |
| Coverage.BackwardBlockDisagrees | test-gen/testgen/coverage.go:230-240 | one block that does |
| Coverage.ParseLcov | test-gen/testgen/coverage.go:31-121 | a path's counts are those of its last record and its uncovered lines those of its last record that has any |
| Coverage.StopsAt | test-gen/testgen/coverage.go:41-60 | reading stops exactly at the 501st file |
| Coverage.RecordCounts | test-gen/testgen/coverage.go:60-121 | a record's total is the number of its data lines, its covered lines are those with hits, and its uncovered lines are the others, in order |
| Coverage.LastRecordCounts | test-gen/testgen/coverage.go:93-121 | a path's counts are those of its last record |
| Coverage.LastMissedLines | test-gen/testgen/coverage.go:93-121 | its uncovered lines are those of its last record that has any |
| Coverage.LcovCountsAgreeIff | test-gen/testgen/coverage.go:93-121 | total minus covered is the number of uncovered lines recorded for a path if and only if its last record has uncovered lines or none of its records has |
| Coverage.OneRecordAgrees | test-gen/testgen/coverage.go:41-121 | for a file that is opened at most once they always agree |
| Coverage.SecondRecordDisagrees | test-gen/testgen/coverage.go:44-54 | a file with a second, fully covered record keeps the uncovered line of the first |

## Left out

- Similarity.LevenshteinRatio: ratios are reals; the rounding of 64-bit floats, and the reuse of pooled row slices, are not modelled.
- Matcher.SortByScore: the standard library's unstable sort is a method that promises a descending permutation and nothing about ties.
- Splice.ApplyEdit: one edit of one file; path checks, reading and writing files, new files and the report of failures are input and output.
- LruCache.WorkspaceCache.InsertSection: the lookup in the database between two locked sections is not modelled; its answer is an argument.
- LruCache.WorkspaceCache.PushFront: the source repeats the linking of a node in two functions, as it does the unlinking; here each stands once.
- TaskTable.Tasks.EnqueueTask: the count and the insert are two statements in the source, so the limit of 100 can be passed by a race; `DelegationRuns` therefore lets any insert happen.
- TaskTable.Tasks.ClaimNextTask: rows locked by another claim at that moment, which `SKIP LOCKED` passes over, are not modelled; a claim is one atomic step.
- DelegationRuns.DeadlockFree: sessions, costs, time limits and the check whether a user may start another session are not modelled; runs here include all runs they leave.
- PollerStop.WaitingStopDrains: a Stop counts as having waited when no call is inside poll as it returns, which the pipeline's wait for its ticker loop gives once Start has made its own first poll; the wait group is that of the counter.
- Poller.ConcurrencyBounded: the LIMIT on the polled rows is covered by lists of any length; execution itself is one step that ends when it likes.
- TokenBucket.Manager.CheckRateLimit: the source multiplies a float of minutes by 20 and truncates; the model divides whole nanoseconds by three seconds, so a rounding at the edge of an interval is not modelled.
- SlidingLog.RateLimits.CheckRateLimit: calls are serialized; the window of the counter and a log are under two locks in the source, and calls that overlap between the two are not modelled.
- HubRuns.RunInv: the pooled slice that a publish borrows is a set of its own; a select with several cases ready may take any of them.
- Persist.SessionOrder: the hash of a session id is any function of it, since FNV-1a is a library's; a failed INSERT, which the source logs and forgets, counts as handed over.
- Ids.GenerateID: the clock and the random bytes are arguments; a failing random source, which panics, is not modelled.
- DiffParser.ParseDiffFile: reading the start line out of a hunk header is an argument, and old-file numbers, which the source never sets, are left out.
- Coverage.ParseGoCoverage: blocks arrive already parsed; the check of the mode line, the splitting of a line into fields, and read errors are left out.
- Coverage.ParseLcov: lines arrive already parsed into numbers, and file size limits and read errors are left out; percentages are a division of the counts.
- Sequence numbers of the relay (`NextSequence`, `CleanupOrphanedSequences`): an atomic counter, which the clean-up resets for sessions without subscribers.
- Role order, depth and chain checks of delegation: single decisions over rows.
- HTTP, websockets, Docker, git, chat and model clients, prompts, cron evaluation, cryptography, and plain reads and writes of the database.
