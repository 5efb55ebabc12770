# A verified model of the message gateway's core

The gateway connects chat channels to an AI provider subprocess. This project models the parts of it
whose correctness is not visible in any single function, and proves what they keep over every input,
every interleaving or every run. `dafny verify dfyconfig.toml` checks everything.

| Modules | What they model |
|---|---|
| `Text`, `SplitStep`, `Split`, `SplitCuts`, `SplitHeaders`, `SplitConservation`, `SplitTermination`, `SplitFences`, `SplitExact`, `SplitIntegrity`, `SplitExamples` | `SplitMessage`: cutting a long message into chunks, closing and reopening code blocks by rewriting its own buffer |
| `Bridge`, `BridgeResume`, `BridgeProgress` | the in-flight protocol of message goroutines, `/stop` and `/clear` |
| `Cron`, `CronSafety`, `CronRuns`, `CronLoops`, `CronServices` | the cron scheduler with its locked regions, run loops, saves, crashes and restarts |
| `Outbound`, `OutboundCalls`, `OutboundProgress` | bus, dispatcher, channel workers, splitting and retries |
| `Trigrams`, `SearchCaches`, `SearchCacheRuns`, `SearchCacheObject` | the LRU and TTL search cache with its similarity index |
| `Media`, `MediaStores` | the media store's three maps and its two-phase deletion |
| `Retry`, `Idle`, `AtomicWrite`, `Reconnect` | the provider retry loop, the idle-timeout scanner, the atomic file write, the reconnect lifecycle |

How to read it. Code that loops over a buffer is a method, proved equal to a function of its inputs;
what the repository promises is proved about that function. Objects that update fields under a mutex
are classes, whose methods are proved to do to an abstract value exactly what a machine or a
specification says. Goroutines are machines: a `Do` function gives one atomic step, `Run` (or
`Reached`) gives the state after a schedule, and a theorem about every schedule is a theorem about every
interleaving. A step that would block, or that is not possible, leaves the state as it is, so any list
of actions is a schedule. Clocks, UUIDs, the provider, the platform clients, the cron-expression
library and the success of disk writes are parameters or choices of the schedule.

## Results that need a condition

* `SplitMessage` does not always return. For trimmed content whose fences start their lines,
  `SplitExact.TerminationExact` says for every limit exactly when it does: the limit is at most 4, or
  every opening fence has a header that leaves 7 runes of room in a chunk, or another fence that ends
  within a chunk's length of it, or the end of the content within that length. It then takes at most as
  many iterations as the content has runes, though the buffer is rewritten and may grow. For any content
  `SplitTermination.Terminates` proves that fitting headers suffice.
* Chunks are balanced exactly if the content is, for fences at line starts and limits from 7 on, or from 5
  on for trimmed content (`SplitIntegrity.FinishedIntegrity`); 6 and 4 are too small
  (`SplitExamples.SixIsTooSmall`, `FourIsTooSmall`). From 9 on every chunk but the last is balanced at
  every moment, also of a run that never ends (`SplitFences.FenceIntegrity`); 8 is too small for that.
  That fences start their lines is a sufficient condition, and without it a balanced content can have an
  unclosed fence as its first chunk (`SplitExamples.CutInsideClosedBlock`).
* Executions of jobs never overlap, and rest as long as their schedules ask, if each Start comes when no
  run loop is left (`CronLoops.GapsKept`). Whenever one is left, two executions of a job can overlap
  (`CronLoops.LeftLoopOverlaps`).
* A step may remove a file that a live ref names. Before the next Store none ever will exactly if no live
  path is about to be removed and refs that share a path stand and fall together: they share their scope,
  and there is no maximal age, or they were stored at one time, or both are past that age already
  (`Media.SafeExactly`). A Store keeps that exactly if its path is not about to be removed, nor live under
  another scope or, with a maximal age, from an earlier time (`Media.StoreExactly`).
* There is at most one reconnect loop if no Start finds the flag `reconnecting` set, which holds if every
  Start follows a Stop whose wait returned (`Reconnect.OrderlyIsClear`). A Start that finds it set leaves
  two loops after the next disconnect (`Reconnect.RestartExactly`, `TwoLoops`).
* A successful atomic write is sure to survive a crash exactly if the directory sync, whose error is
  ignored, worked, or the target was sure to read as the data already (`AtomicWrite.SuccessWrites`).

Where code and documentation disagree, the model follows the code. The channel guide
(`pkg/channels/README.md`, section 4.7) says the last resort for a long code block is to split before it;
the code splits inside it. The comment of `WriteFileAtomic` lists the directory sync before the rename;
the code syncs after it, which is the order that makes the rename durable.

## Model

| member | source | states |
|---|---|---|
| Split.SplitMessage | pkg/channels/split.go:13-140 | For every content and limit: the k-th chunk is what the k-th iteration sends, cut where the buffer says (`SplitCuts`); chunks have 1 to maxLen runes; once the loop ends they carry all the visible text in order; it ends if headers fit; and with fences at line starts, chunks are balanced exactly if the content is, and trimmed content is finished exactly if every code block can be sent |
| Split.FindLastUnclosedCodeBlockInRange | pkg/channels/split.go:144-164 | The scan loop returns the fence that the greedy pairing of fences leaves open |
| Split.FindNextClosingCodeBlockInRange | pkg/channels/split.go:166-175 | The loop returns the end of the first fence at or after the index, or -1 |
| Split.FindLastNewlineInRange | pkg/channels/split.go:186-196 | The backward loop returns the last newline of the window, or start - 1 |
| Split.FindLastSpaceInRange | pkg/channels/split.go:198-208 | The backward loop returns the last space or tab of the window, or start - 1 |
| Split.CutInside | pkg/channels/split.go:65-123 | The branches for a block that does not close in time choose the specified cut or rewrite |
| Split.FindCut | pkg/channels/split.go:39-129 | The whole decision of an iteration equals its specification, with every slice in range |
| Split.Iterate | pkg/channels/split.go:32-137 | One pass through the loop body takes the loop's variables to the specified next state |
| SplitStep.FindLast | pkg/channels/split.go:186-208 | The match found is in the window, satisfies the predicate, and nothing after it does |
| SplitStep.FindClosing | pkg/channels/split.go:166-175 | The closing fence found is a fence, and there is none between the start and it |
| SplitStep.UnclosedIsOdd | pkg/channels/split.go:142-164 | The scan reports an open block exactly if it sees an odd number of fences |
| SplitCuts.LimitExactly | pkg/channels/split.go:25-40 | The room kept free is 10% of the limit, but at least 50 runes, but at most half |
| SplitCuts.NaturalExactly | pkg/channels/split.go:39-51 | The natural cut is the last newline of the last 200 runes within the limit, with none there the last space or tab of the last 100, and the limit itself only with none of those |
| SplitCuts.HeaderExactly | pkg/channels/split.go:67-77 | The header of a block is its first line without white space at the ends, and ends with that line; a bare fence where no line ends |
| SplitCuts.InsideExactly | pkg/channels/split.go:79-121 | For a block that does not close in time: behind its header, the last newline of the last 200 runes that leaves room for a closing, else all that leaves room; else the last break before the block; else the block itself if more than 20 runes come before it; else the last resort |
| SplitCuts.DecidedExactly | pkg/channels/split.go:32-129 | Each decision, said of the buffer alone: the natural cut where it leaves no block open, the first closing fence if that is within the limit, else the choice for the block left open |
| SplitCuts.WordsKept | pkg/channels/split.go:44-51 | In every run a cut inside a word, so neither at white space nor at a code block, is at the limit, with no newline in the last 200 runes and no space or tab in the last 100 |
| SplitCuts.ChunksCutRight | pkg/channels/split.go:32-137 | In every run the k-th chunk is exactly the slice, trimmed and closed if inside a block, that the k-th iteration decides on, and the buffer goes on behind it |
| SplitConservation.ChunkLengths | pkg/channels/split.go:32-137 | In every run each chunk, with any injected closing fence, has between 1 and maxLen runes |
| SplitConservation.ContentConserved | pkg/channels/split.go:91-98 | At any moment of any run the chunks are, apart from injected header text and closings, slices of the content in order with only white space between them, and the buffer is header text and the rest of the content |
| SplitConservation.InkConserved | pkg/channels/split.go:114-136 | When a run ends, the source text of the chunks is exactly the visible text of the content: nothing lost, repeated or reordered |
| SplitConservation.PlainContent | pkg/channels/split.go:131-136 | Content without a fence is never rewritten: chunks and the blanks skipped between them rebuild it exactly |
| SplitHeaders.RunHeaders | pkg/channels/split.go:67-77 | However often the buffer is rewritten, each header it can yield is a header of the original content or a bare fence |
| SplitHeaders.ReopenedHeaders | pkg/channels/split.go:93-95 | If the headers of a buffer are headers of the content or bare fences, so are those of the rewritten buffer |
| SplitTermination.InsideShrinks | pkg/channels/split.go:79-121 | A rewrite after enough text of the block drops at least 21 runes more than the header it adds, whatever the header; the last resort takes a full chunk |
| SplitTermination.StepShrinks | pkg/channels/split.go:79-121 | If headers fit, every iteration leaves fewer runes to send, through both rewrites |
| SplitTermination.Terminates | pkg/channels/split.go:32-137 | If headers fit, the loop ends within as many iterations as the content has runes |
| SplitTermination.StuckForever | pkg/channels/split.go:113-121 | On a stuck content (a header too long for a chunk, and no closing in reach) the loop never ends |
| SplitExact.TerminationExact | pkg/channels/split.go:32-137 | For trimmed content with fences at line starts and every limit: the loop ends if and only if the limit is at most 4 or each opening fence has a fitting header, a fence after it within a chunk, or the end of the content within a chunk |
| SplitExact.StepExact | pkg/channels/split.go:32-137 | Every iteration leaves the blocks all sendable exactly if they were, and then with fewer runes to send |
| SplitExact.UnfitStays | pkg/channels/split.go:109-121 | A last-resort rewrite with a header that does not fit leaves a block that is not sendable, as before |
| SplitFences.TentativeIsClean | pkg/channels/split.go:45-51 | With fences at line starts the natural cut never falls inside a fence, for limits from 7 on, or from 5 on where the chunk does not start with a newline |
| SplitFences.DecideIsEven | pkg/channels/split.go:53-125 | Then a plain cut has an even number of fences before it, and a rewriting cut an odd number, which the closing it adds makes even |
| SplitFences.ReopenedFences | pkg/channels/split.go:93-95 | A rewritten buffer holds the reopened fence and the fences of the tail |
| SplitFences.StepIntact | pkg/channels/split.go:32-137 | From limit 9 on, line-start fences, balanced chunks and the parity of the rest are kept by every iteration |
| SplitFences.FenceIntegrity | pkg/channels/split.go:7-12 | With line-start fences and maxLen >= 9, in every run all chunks but the last are balanced, and when it ends all are if and only if the content is |
| SplitIntegrity.FinishedIntegrity | pkg/channels/split.go:7-12 | With line-start fences and maxLen >= 7, or maxLen >= 5 for trimmed content, the chunks of a finished run are all balanced if and only if the content is |
| SplitExamples.EightIsTooSmall | pkg/channels/split.go:109-121 | With 8 runes a rewrite can cut through the fence, and a run that goes on sends an unbalanced chunk |
| SplitExamples.SixIsTooSmall | pkg/channels/split.go:45-51 | With 6 runes a leading line break hides a fence from the cut: balanced chunks of an unbalanced content |
| SplitExamples.FourIsTooSmall | pkg/channels/split.go:39-51 | With 4 runes no fence is ever seen: balanced chunks of an unbalanced trimmed content |
| SplitExamples.CutInsideClosedBlock | pkg/channels/split.go:101-111 | Without line-start fences a cut can fall inside an earlier closed block: a balanced content whose first chunk is one unclosed fence |
| Bridge.MutualExclusion | pkg/bridge/loop.go:99-112 | In every interleaving at most one flight holds a key, `inFlight` is exactly the keys held, and `cancelFlights` maps a key exactly to the armed flight holding it |
| Bridge.OperateKeepsExclusive | pkg/bridge/loop.go:100-123 | Each map operation of a flight, the deferred ones in LIFO order, keeps that exclusion |
| Bridge.StopAim | pkg/bridge/loop.go:290-297 | A /stop can only cancel the flight that held its session when its Load ran |
| Bridge.ContextDoneBy | pkg/bridge/loop.go:106-112 | The context of an invocation is done only if the bridge shut down, its own flight's defer cancelled it, or a /stop aimed at that flight did |
| BridgeProgress.Arrives | pkg/bridge/loop.go:66-75 | A message gets a flight of its own, which waits for its first step whatever the others do; so does a /stop |
| BridgeProgress.AdmittedExactly | pkg/bridge/loop.go:99-108 | In every reachable state a message is turned away exactly if another flight holds its session, and else holds it |
| BridgeProgress.InvokedWith | pkg/bridge/loop.go:106-176 | Whatever the others do meanwhile, an admitted flight is armed, reads the session entry there is then, and is invoked with it |
| BridgeProgress.ReturnsAndLeaves | pkg/bridge/loop.go:104-112 | Whatever the others do meanwhile, what an invocation returned is stored, and then its context is cancelled, its cancel function deleted and its session given back |
| BridgeProgress.StopReaches | pkg/bridge/loop.go:290-297 | A /stop whose Load runs while a flight of its session is armed aims at exactly that flight, and once it has made its call that flight's context is done, whatever happens in between |
| BridgeProgress.DownForGood | pkg/bridge/loop.go:106 | A shutdown ends the context of every invocation, for good |
| BridgeProgress.ClearForgets | pkg/bridge/loop.go:286-289 | After a /clear the session has no entry until a flight of it stores one |
| BridgeResume.ResumeChain | pkg/bridge/loop.go:133-262 | Each flight is handed the ID of the latest earlier flight of its key that ended well with one (or the loaded one), or none if the session was cleared since |
| BridgeResume.StoreKeeps | pkg/bridge/loop.go:254-256 | Storing an ID after a flight ended keeps that chain for all keys |
| BridgeResume.ClearKeeps | pkg/bridge/loop.go:286-289 | A /clear at any moment keeps it, including one whose effect a flight under way overwrites |
| CronSafety.AtMostOnce | pkg/cron/service.go:135-264 | In every run with any number of loops, failing saves, stops, restarts and crashes, an `at` job begins at most once and never before its time |
| CronLoops.GapsKept | pkg/cron/service.go:121-264 | In every run in which each Start comes when no run loop is left, whatever is added, removed, enabled or disabled meanwhile, no execution begins while another of any job is under way, and each execution of a job begins no earlier than the run its schedule gives at the end of the previous one: the interval of an `every` job, the next tick of a cron expression |
| CronLoops.LeftLoopOverlaps | pkg/cron/service.go:82-133 | From every stopped service with a run loop left there is a run in which two executions of a given enabled `every` job overlap |
| CronLoops.LoopsRefine | pkg/cron/service.go:121-175 | Whatever any number of run loops do is a run of the machine in which collected jobs are taken in any order, so what holds of those runs holds of the loops |
| CronLoops.StepKeepsOneLoop | pkg/cron/service.go:121-175 | With one loop at most, the jobs collected and handled are those of that loop |
| CronSafety.NextKeepsOneShot | pkg/cron/service.go:236-246 | Each step keeps an `at` job that was collected or run off the schedule for good |
| CronSafety.NextKeepsGap | pkg/cron/service.go:247-249 | Each step keeps a job of any kind off the schedule until the run its schedule gives at the end of the last execution |
| CronSafety.LookStep | pkg/cron/service.go:135-264 | What a step of the whole system does to one job, its copy on disk and its record depends on that job alone |
| Cron.NextRunExactly | pkg/cron/service.go:266-300 | The next run is the job's own time if that is still to come, or an interval from now, or the next tick, and there is none otherwise |
| Cron.ExecutedExactly | pkg/cron/service.go:224-255 | A run leaves its start and its status, `ok` or `error`; a one-shot job is deleted or disabled, and any other is on the schedule for the time its schedule gives |
| CronRuns.RunsWhenDue | pkg/cron/service.go:135-169 | In every run, a job that is added, enabled, read at a start, or has run and recurs, is on the schedule for exactly the time its schedule gives; there it stays, and the first check of a running service at that time or later collects it |
| CronRuns.AtRunsOnce | pkg/cron/service.go:135-264 | In every run an `at` job added before its time and left alone is collected or called exactly once if a running service checked at its time or later, and else not at all; and once collected its call comes when a loop reaches it |
| CronRuns.RemovedNeverRuns | pkg/cron/service.go:420-445 | After a removal that was saved the job is never executed again, whatever happens |
| CronRuns.DisabledNeverDue | pkg/cron/service.go:447-471 | A disabled job is not collected until it is enabled again or the service is started anew |
| CronRuns.SavedSurvives | pkg/cron/service.go:336-404 | A job whose addition was saved is there with its schedule after any crashes and starts, unless it is removed, switched or run or a start fails to read the file |
| CronRuns.CrashReverts | pkg/cron/service.go:336-361 | A crash brings back exactly the jobs of the last save that worked |
| CronLoops.StopCanFinish | pkg/cron/service.go:106-133 | Whenever the service is stopped its loops can finish what they collected and leave |
| CronServices.CronService.Start | pkg/cron/service.go:82-104 | Loads the file, recomputes exactly the enabled jobs, and runs only if the save worked; an unreadable file leaves no jobs |
| CronServices.CronService.CollectDue | pkg/cron/service.go:135-169 | Returns each due job once and takes exactly those off the schedule; nothing happens when stopped |
| CronServices.CronService.RecordRun | pkg/cron/service.go:208-264 | Updates, disables or deletes exactly the job that ran: its start, `ok` or `error`, and for a job that is not one-shot exactly the next time its schedule gives; a job that disappeared changes nothing, not even the file |
| CronServices.CronService.RecomputeNextRuns | pkg/cron/service.go:302-310 | Every enabled job, and no other, is put on the schedule for exactly the time its schedule gives, or for none |
| CronServices.CronService.AddJob | pkg/cron/service.go:363-404 | The new job is enabled, on the schedule for exactly the time its schedule gives, and deleted after its run exactly if it is one-shot; it is returned if the save worked, and stays in memory even if not |
| CronServices.CronService.RemoveJob | pkg/cron/service.go:427-445 | Exactly the named job goes, and the file is written only if it was there |
| CronServices.CronService.EnableJob | pkg/cron/service.go:447-471 | Switches exactly the named job, and puts it on the schedule for exactly the time its schedule gives, or takes it off |
| CronServices.TableOfCollected | pkg/cron/service.go:147-163 | Resetting due jobs one slot at a time is collecting them from the table |
| CronServices.TableOfWithout | pkg/cron/service.go:427-436 | The rebuilt slice lacks exactly the named job, and is shorter exactly if it was there |
| CronServices.DueIsSet | pkg/cron/service.go:144-152 | The loop's list of due jobs is the set of due jobs, each once |
| Outbound.SendWithRetry | pkg/channels/manager.go:416-469 | Calls Send until the first success or permanent error, and at most maxRetries + 1 times, unless the rate limiter or the context ends it; each wait is the fixed delay or the doubling backoff up to its cap; a rate limit is waited out for 1000 ms, and the first, second and third other failure for 500, 1000 and 2000 ms |
| Outbound.DelaysExactly | pkg/channels/manager.go:443-459 | The waits after temporary failures start at 500 ms and are each the smaller of 8000 ms and twice the one before |
| Outbound.FifoConservation | pkg/channels/manager.go:471-533 | In every schedule, for each channel with a worker: published messages are, in order, those handled, in work, queued, in the dispatcher's hand and on the bus; no buffer overflows |
| Outbound.EnqueueKeepsOrder | pkg/channels/manager.go:521-529 | A message entering the queue, from the dispatcher or past it, keeps the channel's order |
| OutboundCalls.CallsAccounted | pkg/channels/manager.go:380-409 | In every schedule the calls of Send on a channel are exactly, in order, the attempts at the chunks of the items handled and in work: contiguous, in split order, each until its first final outcome or the last retry |
| OutboundCalls.CallFaithful | pkg/channels/manager.go:427-460 | One more call of Send keeps that account |
| Outbound.RetryOrComplete | pkg/channels/manager.go:427-442 | An attempt ends the retries of a chunk exactly if its outcome is final or it was the last allowed |
| OutboundCalls.ChunksCarry | pkg/channels/manager.go:388-405 | What is sent for a message fits the channel's limit and carries exactly its visible text |
| OutboundCalls.NeverHung | pkg/channels/manager.go:396-397 | A worker gets lost in splitting no message whose headers fit |
| OutboundCalls.HangsExactly | pkg/channels/manager.go:388-405 | A worker gets lost in splitting a trimmed message with fences at line starts exactly if it has no media, is longer than the channel's limit, and has a code block that cannot be sent in chunks |
| OutboundCalls.NeverTooLong | pkg/channels/manager.go:388-405 | In every schedule, on a channel with a length limit, no call for a message without media is longer than the limit, whatever else the channel carries |
| OutboundProgress.BuffersExactly | pkg/bus/bus.go:14-76 | The bus takes a message exactly while it holds fewer than 64, and a worker's queue exactly while it holds fewer than 16 |
| OutboundProgress.RoutesExactly | pkg/channels/manager.go:471-533 | The dispatcher drops exactly internal messages and those without a worker, queues any other at the end, and keeps it while the queue is full |
| OutboundProgress.EverythingIsSent | pkg/channels/manager.go:380-533 | From every reachable state without a message on which its worker hangs, if the platforms accept what they are sent, a run without new messages leads to where all published for a channel has been handled in order: there is no deadlock |
| Trigrams.BuildTrigrams | pkg/skills/search_cache.go:172-196 | The result is strictly increasing and its elements are exactly the codes of the three-byte windows |
| Trigrams.Dedup | pkg/skills/search_cache.go:185-195 | The in-place deduplication keeps exactly the elements of a sorted array, each once |
| Trigrams.JaccardSimilarity | pkg/skills/search_cache.go:198-220 | The two-pointer merge computes the Jaccard index of the two sets: times the size of the union it is the size of the intersection |
| Trigrams.CodeInjective | pkg/skills/search_cache.go:182 | No two windows share a code, and codes fit 32 bits |
| Trigrams.CodesExact | pkg/skills/search_cache.go:172-220 | Comparing codes gives the Jaccard index of the windows themselves |
| Trigrams.JaccardLaws | pkg/skills/search_cache.go:198-220 | The index is symmetric, in [0, 1], 1 exactly on equal and 0 exactly on disjoint sets |
| Trigrams.JaccardExactly | pkg/skills/search_cache.go:198-220 | The index times the size of the union is the size of the intersection |
| Trigrams.WindowsExactly | pkg/skills/search_cache.go:179-183 | The windows of a string are exactly the three bytes in a row that occur in it |
| Trigrams.ShortQueries | pkg/skills/search_cache.go:176-178 | Two queries shorter than three bytes always score 1; a short one and a longer one score 0 |
| SearchCacheObject.SearchCache.constructor | pkg/skills/search_cache.go:34-47 | An empty cache, with 50 entries and 300 s for arguments that are not positive |
| SearchCacheObject.SearchCache.Get | pkg/skills/search_cache.go:51-90 | Answers with the live entry of the query, else with a live entry of maximal similarity of at least 0.7, else not at all; moves exactly the entry hit to the end |
| SearchCacheObject.SearchCache.MostSimilar | pkg/skills/search_cache.go:68-82 | In whatever order the map is visited, the result has the greatest similarity of all live entries |
| SearchCacheObject.SearchCache.Put | pkg/skills/search_cache.go:93-133 | Drops all expired entries, replaces the query's own entry or else evicts the least recently used one if still full, and appends the new entry |
| SearchCacheObject.SearchCache.EvictExpired | pkg/skills/search_cache.go:144-156 | Exactly the expired entries go, and the others keep their order |
| SearchCacheObject.SearchCache.MoveToEnd | pkg/skills/search_cache.go:158-166 | The entry becomes the last, and the others keep their order |
| SearchCaches.EvictsOldest | pkg/skills/search_cache.go:118-123 | A Put loses a live entry of another query exactly if that is the least recently used one of a full cache in which all live and the query is not |
| SearchCaches.KeptFits | pkg/skills/search_cache.go:102-123 | After eviction there is room for one more entry |
| SearchCaches.HitsExactly | pkg/skills/search_cache.go:51-90 | A Get hits exactly if some entry less than ttl old is for its query or at least 0.7 similar, and hits such an entry, of the greatest similarity unless it is for the query itself |
| SearchCaches.StoredIsYoung | pkg/skills/search_cache.go:93-102 | After a Put every entry is less than ttl old |
| SearchCacheRuns.RunFaithful | pkg/skills/search_cache.go:51-133 | In every run the cache is within its bound, sorted by last use without repeats, and each entry is the latest Put of its query |
| SearchCacheRuns.Survives | pkg/skills/search_cache.go:93-133 | An entry stays as long as it lives, is not put again, and fewer than maxEntries other queries are used |
| SearchCacheRuns.GetReturnsPut | pkg/skills/search_cache.go:49-66 | So a Get of the query in that time returns exactly what was put |
| SearchCacheRuns.HitsAreYoung | pkg/skills/search_cache.go:51-90 | In every run what a Get hits is what the latest Put of that query stored, less than ttl before the Get, and that query is the Get's or at least 0.7 similar |
| Media.RefsConserved | pkg/media/store.go:135-220 | In every interleaving each ref ever stored is either live with its path or has exactly one removal, pending or attempted |
| Media.FilesSafeIfStoredOnce | pkg/media/store.go:135-220 | If each path is stored at most once, each file is removed at most once and never while a ref to it is live |
| Media.SafeExactly | pkg/media/store.go:135-220 | No run without another Store ever removes a live file exactly if no live path is pending and refs sharing a path share their scope and, when there is a maximal age, their time, unless both are past that age |
| Media.StoreExactly | pkg/media/store.go:91-109 | A Store keeps that exactly if its path is neither pending nor live under another scope or, when there is a maximal age, from an earlier time |
| Media.CarefulRuns | pkg/media/store.go:91-220 | In every interleaving whose Stores are so checked, no step removes a live file |
| Media.StoresExactly | pkg/media/store.go:91-109 | A new ref is live with its path, metadata and scope and the time of the call, and nothing else changes |
| Media.LiveExactly | pkg/media/store.go:135-207 | In every run a ref is live and unchanged exactly until its scope is released, or a cleaning finds it older than the maximal age |
| Media.AllRemoved | pkg/media/store.go:159-217 | From every state all pending removals can be made, each once |
| MediaStores.FileMediaStore.Store | pkg/media/store.go:91-109 | Adds exactly the new ref, with its scope, and keeps the three maps inverse to each other |
| MediaStores.FileMediaStore.Resolve | pkg/media/store.go:112-133 | Finds the path and metadata of exactly the refs in the table |
| MediaStores.FileMediaStore.ReleaseAll | pkg/media/store.go:138-157 | Exactly the scope's refs go, each once, and their paths are the ones to remove |
| MediaStores.FileMediaStore.CleanExpired | pkg/media/store.go:175-207 | Exactly the refs stored strictly before the cutoff go, each once, with scopes left empty; nothing without a maximal age |
| MediaStores.UnscopedKeepsInverse | pkg/media/store.go:194-201 | Removing one ref from its scope, and the scope if empty, keeps the maps inverse |
| Retry.InvokeWithRetry | pkg/providers/retry.go:32-72 | Attempts stop at the first result that needs no retry, the second expiry or the last allowed idle timeout; the hung error is exactly the last; at most max(1, maxRetries) + 1 attempts |
| Retry.HungExactly | pkg/providers/retry.go:53-58 | A run ends hung exactly if it has max(1, maxRetries) idle timeouts; a session retry costs none of them |
| Retry.StopsExactly | pkg/providers/retry.go:38-70 | All attempts but the last were idle timeouts or the first expiry; the last needs no retry, is the max(1, maxRetries)-th timeout, or is the second expiry |
| Retry.SessionSource | pkg/providers/retry.go:51 | Each attempt's session ID is the latest one an idle timeout reported, or none after an expiry, or the first |
| Idle.LinesDelivered | pkg/providers/idle.go:32-98 | In every schedule the lines forwarded are the non-empty lines of a prefix, in order, and of all input when there was no timeout and no line too long; cancel waits for the timeout; the output closes once, after the scanner goroutine ended |
| Idle.NothingAfterCancel | pkg/providers/idle.go:86-93 | Nothing is forwarded after a cancellation, which is never repeated |
| Idle.TimeoutExactly | pkg/providers/idle.go:64-87 | The timer runs from the latest non-empty line, and the subprocess is cancelled only when none came for the whole timeout |
| Idle.GivesUpExactly | pkg/providers/idle.go:36-62 | The scanner gives up on its own exactly at a line of 4 MB or more |
| Idle.BufferExactly | pkg/providers/idle.go:33 | The output buffer holds eight lines, and takes one exactly while there is room |
| Idle.NoDeadlock | pkg/providers/idle.go:52-95 | Until the output is closed and empty some goroutine or the consumer can move, or all wait for a silent subprocess while the timer runs, or for one already cancelled to go away |
| Idle.TimerEndsWait | pkg/providers/idle.go:64-93 | A wait for a silent subprocess ends: once the timeout has passed the timer fires and the manager cancels |
| Idle.ClosesByItself | pkg/providers/idle.go:86-95 | Once the subprocess is gone the goroutines and the consumer come to the end by themselves |
| Idle.DeliversAll | pkg/providers/idle.go:32-98 | For every input without a line too long some run delivers all of it and ends without a cancellation |
| Idle.MoveIsProgress | pkg/providers/idle.go:52-95 | Every step but the passing of time reduces the work left, so no run goes on forever |
| Idle.ScanDirectly | pkg/providers/idle.go:39-50 | Without a timeout every non-empty line is forwarded, in order |
| AtomicWrite.SavesExactly | pkg/fileutil/file.go:46-113 | However often the target is saved, each save failing or abandoned after any step, after a crash it can read as exactly the original or the data of a save that reached the rename, of those since the last directory sync that worked |
| AtomicWrite.CrashExactly | pkg/fileutil/file.go:46-113 | What each name can read as after a crash in the middle of a call, on any disk: what it could before, and for the target after the rename also the data; behind the directory sync the data alone |
| AtomicWrite.CrashSafe | pkg/fileutil/file.go:46-113 | A crash after any step leaves the target wholly as it could be before or wholly new, and every other file as it could be |
| AtomicWrite.ErrorLeavesOld | pkg/fileutil/file.go:66-101 | An error leaves the target as it was, read now or after a crash, and removal of the temporary file was tried |
| AtomicWrite.SuccessWrites | pkg/fileutil/file.go:99-113 | Success means the target reads as the data and the temporary name is gone; after a crash it is sure to exactly if the directory sync worked or it was sure to before |
| AtomicWrite.SucceedsExactly | pkg/fileutil/file.go:46-113 | A call succeeds exactly if its steps up to the rename all work and its temporary name is free, and fails otherwise; the directory sync alone may fail unnoticed |
| AtomicWrite.RemovesTemp | pkg/fileutil/file.go:66-71 | A call that gives up after creating the temporary file leaves none, if its removal works |
| Reconnect.CountIsUnfinished | pkg/channels/whatsapp_native/whatsapp_native.go:282-288 | The WaitGroup counts exactly the tracked goroutines that have not ended |
| Reconnect.NoAddAfterStop | pkg/channels/whatsapp_native/whatsapp_native.go:211-218 | From a Stop to the next Start nothing is added to the WaitGroup |
| Reconnect.AtMostOneInLoop | pkg/channels/whatsapp_native/whatsapp_native.go:264-297 | If no Start finds the flag `reconnecting` set, at most one goroutine is in the reconnect loop and the flag says exactly whether |
| Reconnect.OrderlyIsClear | pkg/channels/whatsapp_native/whatsapp_native.go:208-249 | If every Start comes first or after a Stop whose wait returned, no Start finds the flag set and there is at most one loop |
| Reconnect.ReturnedStaysEmpty | pkg/channels/whatsapp_native/whatsapp_native.go:235-249 | Once the wait of a Stop has returned, the WaitGroup stays empty until the next Start |
| Reconnect.RestartExactly | pkg/channels/whatsapp_native/whatsapp_native.go:78-87 | A Start followed by a disconnect leaves two loops exactly if it found the flag set, and else one |
| Reconnect.TwoLoops | pkg/channels/whatsapp_native/whatsapp_native.go:243-249 | Such a run: the Stop gives up its wait, and the channel is started and disconnected again |
| Reconnect.DisconnectExactly | pkg/channels/whatsapp_native/whatsapp_native.go:264-289 | With the flag clear at each Start, a disconnect starts a loop exactly if the channel is not stopping and no loop runs |
| Reconnect.LeaveMakesRoom | pkg/channels/whatsapp_native/whatsapp_native.go:292-297 | A reconnector that leaves clears the flag, so the next disconnect starts a new loop |
| Reconnect.StartsExactly | pkg/channels/whatsapp_native/whatsapp_native.go:78-87 | A Start resets both flags; the QR goroutine is tracked unless the channel is stopping; a Stop sets its flag |
| Reconnect.WaitCanReturn | pkg/channels/whatsapp_native/whatsapp_native.go:235-249 | From every state the goroutines can finish, so that the wait of a Stop returns |
| Reconnect.ReconnectWithBackoff | pkg/channels/whatsapp_native/whatsapp_native.go:292-336 | The waits are 5 s and then each the smaller of 300 s and twice the one before, each after a failed Connect; the loop ends when it is connected, cancelled or has no client |

## Left out

- Split.SplitMessage: the source's loop has no bound; the model's takes a number of iterations and says whether the loop ended within it, because it does not always end.
- SplitExact.TerminationExact: for content with fences inside lines, or white space at its ends, only sufficient conditions for ending and for not ending are proved (`Terminates`, `StuckForever`).
- SplitFences.FenceIntegrity: the line-start condition is shown by an example to be needed, not to be necessary content by content.
- SplitConservation.InkConserved: visible text is text without white space, since trimming drops blanks around a rewrite.
- The branch of `SplitMessage` for a cut that does not advance is modelled and is never taken; content is a sequence of runes, so the decoding of invalid UTF-8 is outside.
- Goroutines and channels are machines over values, not shared memory; each map or channel operation and each locked region is one step.
- CronServices.CronService.AddJob: job IDs are assumed fresh; `UpdateJob` and `Load` can replace a schedule and are not modelled.
- Cron: a loop takes the jobs it collected in any order, not in the order of the slice; cron expressions are an arbitrary function, of which `CronLoops.GapsKept` asks only that it gives no earlier tick for a later time.
- SearchCacheObject.SearchCache.Get: the clock is read once a call, similarity is an exact fraction, and results are values, so copying them is not visible; lowercasing and trimming are an arbitrary function.
- MediaStores.FileMediaStore.ReleaseAll: the second phase is the machine's Remove step; whether a removal succeeds does not matter to the claims.
- MediaStores.FileMediaStore.Store: UUIDs are assumed never to repeat; the machine assumes that the clock never goes back, as Go's monotonic clock does not.
- Outbound.FifoConservation: before shutdown and with fixed workers; draining on Close and StopAll is not modelled, and waits between attempts take no step of the machine.
- Reconnect.ReconnectWithBackoff: the source's loop has no bound; the model's makes a given number of rounds and says whether the loop ended within it.
- Retry.InvokeWithRetry: requests differ only in the session ID, so the other fields are part of runOnce.
- Idle.LinesDelivered: a timer firing is one step with putting its value on its channel; splitting the subprocess output into lines is the library's, and a line too long is one of 4 MB in characters.
- AtomicWrite.CrashSafe: rename is atomic as in POSIX, a file not synced may read as anything after a crash, inodes are not reused, and the temporary name is not the target.
- Typing and reaction callbacks, placeholders and the janitor: an entry may be stopped twice or replaced, so no exact claim holds.
- The persistence of sessions.json under concurrent saves, and conversation history.
- Platform clients, HTTP, JSON, configuration, health checks, Markdown conversion and command parsing: library calls or easier members.
