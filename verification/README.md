# Jaeger C client: a verified model

The Jaeger C client collects spans, carries span contexts between processes and decides which
traces to sample. This project models the parts of it where the logic is hard, in Dafny, and
proves what they do:

* **Baggage hashtable** (`TableSpec`, `TableRuns`, `LinkedList`, `BucketArray`, `Hashtable`,
  `TableMemory`, `HashtableRuns`).
  A heap model of the bucket array of intrusive doubly linked lists, proved against a table of
  sequences, which in turn is proved to be a plain finite map over every run of its operations.
  The hash is a parameter.
* **Context codecs** (`CStrings`, `Uri`, `SpanText`, `BinaryFormat`, `BinaryCodec`,
  `BinaryLayout`, `TextLaws`, `HeaderFormat`, `PairLaws`, `HeaderLaws`, `SpecialHeaders`, `HeaderCodec`,
  `HeaderTrip`, `Contexts`). Binary, text-map and HTTP carriers
  and the `trace:span:flags` string, each as a printer and a parser, with round trips between
  them, and as the loops and callbacks that run them over the heap table.
* **Remote reporter queue** (`ReporterSpec`, `Batching`, `SpanVector`, `Reporter`). Reporting, batching
  the longest prefix that fits, sending with arbitrary failures, restoring: as a queue, as the
  vector that holds the queue, and as the object with its cells.
* **Two-mutex acquisition** (`LockProtocol`). Interleaved steps of any number of threads over any
  number of mutexes.
* **Samplers** (`Clock`, `TokenBucket`, `Samplers`, `CreditLaws`, `Vector`, `Adaptive`,
  `AdaptiveLaws`). Credit accounting,
  guaranteed throughput, and the sorted per-operation index.
* **SipHash-2-4** (`SipHash`, `SipHashBits`, `SipHashVector`). The streaming loop and fall-through tail against the
  padded-word definition of section 2 of Aumasson and Bernstein, "SipHash: a fast short-input PRF".

Memory (`Allocation`) is an endless tape that says of each allocation whether it succeeds; wherever
the code checks one, the model asks the tape, and every contract says what happens while memory
holds. Callbacks that write are tapes of answers in the same way. Clock readings, random
draws and send outcomes are inputs. C strings are byte sequences; a buffer
is cut at its first NUL where the code would read it as a string.

## Where the code does not do what it seems meant to

Each of these is a theorem about the code as it is, with the exact condition under which the
intended property holds.

* `jaeger_hashtable_remove` does not decrement `size`. The size assertions of the copy and of the
  binary injector hold exactly when no effective remove is outstanding (`SizeAssertionsHoldIff`), and
  an injected message can be read back exactly when the size field is exact (`ReadableIffSizeExact`).
* `jaeger_vector_lower_bound` keeps the probed position when it goes left. It finds the bound
  exactly when that is the end, the last position, or the last but one for some lengths
  (`LowerBoundRightIff`); the adaptive index stays sorted exactly while every insertion is of that
  kind (`SampleSortedIff`, `RunSortedIff`), and `Misplaced` gives an input that breaks it.
* A flush that sends the last span leaves a NULL buffer behind with a positive capacity, and the
  next report fails its assertion (`ReportFlushReport`). A failed send can restore a length beyond
  the capacity, and the next report overwrites the spans in between with NULL
  (`FailedSendLosesSpan`). `Flush` says after each flush exactly whether reports still work, and
  `HealthyAfterGoodFlushIff` says when they do if every send succeeds. Also, spans destroyed for lack
  of memory are put back when the send then fails (`FlushBatchInv`, `FlushInv`). Over whole
  runs, spans are conserved and no assertion fails after any call exactly when every report meets a
  healthy vector or fails before touching it, and no flush puts destroyed spans back
  (`RunSoundIff`, `Drive`).
* When binary extraction fails behind a complete baggage entry and in front of the next one's value,
  the clean-up frees the previous entry's buffers a second time (`ParseBaggageBinary`); for messages
  cut short `ExtractTruncated` says which lengths these are.
* The text injector's inner loop lets a later success replace an earlier error. A success code means
  that all headers were written exactly for tables without a bucket of two entries
  (`SuccessMeansCompleteIff`).
* A baggage key that is empty or, over HTTP, not lower-case does not come back, and a value with the
  byte 0x7f makes the HTTP decoder's assertion fail: the round trip holds exactly for the other
  contexts (`HeadersComeBackIff`). A context with a zero trace id and no baggage comes back as no
  context at all, whatever its span id and flags.
* A debug header in front of the trace header has its flags overwritten (`DebugOrderIff`).
* `jaeger_span_context_format` returns the length of the text only when the trace id alone does not
  fit the buffer; otherwise it leaves the trace id out of the count (`SpanContextFormat`).
* `jaeger_time_subtract` can return 10^9 nanoseconds, exactly for the fields `Carries` describes
  (`Subtract`); normalised times are never of that kind.
* `jaeger_lock` can livelock (`LivelockPossible`), though it never deadlocks and can always finish.

## Model

| member | source | states |
|---|---|---|
| `LinkedList.List.Get` | src/jaegertracingc/list.c:19-31 | walking from the head gives the node at that index of the list's node sequence, or null past the end |
| `LinkedList.SpliceFirst` | src/jaegertracingc/list.c:39-50 | the pointer writes of an insertion in front leave a chain whose links agree in both directions |
| `LinkedList.SpliceAfter` | src/jaegertracingc/list.c:56-63 | so do those of an insertion behind a node, for every position |
| `LinkedList.Unsplice` | src/jaegertracingc/list.c:87-94 | so do those that take a node out from between its neighbours |
| `LinkedList.List.Insert` | src/jaegertracingc/list.c:33-66 | the list stays well formed (links, head, size, ownership) and its sequence gets exactly the element at exactly that index |
| `LinkedList.List.Append` | src/jaegertracingc/list.c:68-71 | the element comes last |
| `LinkedList.List.NodeRemove` | src/jaegertracingc/list.c:73-97 | the list stays well formed and loses exactly that node, which is left in no list with both links null |
| `LinkedList.List.Clear` | src/jaegertracingc/list.c:99-113 | the list is empty and well formed |
| `BucketArray.Buckets.constructor` | src/jaegertracingc/hashtable.c:101-109 | 2^order different, empty, well-formed lists |
| `BucketArray.Buckets.Append` | src/jaegertracingc/hashtable.c:199-199 | one bucket gets the entry at its end; every other bucket is unchanged and still well formed |
| `BucketArray.Buckets.Unlink` | src/jaegertracingc/hashtable.c:209-212 | one bucket loses the entry; every other bucket is unchanged and still well formed |
| `BucketArray.Buckets.SetValue` | src/jaegertracingc/hashtable.c:183-191 | exactly one entry's value changes |
| `BucketArray.Buckets.MoveHead` | src/jaegertracingc/hashtable.c:116-123 | the first node of a bucket moves, without copying, to the end of the bucket its hash names in the other array, and the two arrays stay disjoint |
| `BucketArray.Buckets.Drain` | src/jaegertracingc/hashtable.c:112-124 | all nodes of a bucket are distributed in order |
| `BucketArray.Buckets.DrainAll` | src/jaegertracingc/hashtable.c:111-125 | all nodes of all buckets are distributed in order |
| `Hashtable.MinimalOrder` | src/jaegertracingc/hashtable.c:215-228 | both builds, 32 minus the leading zeros and the loop, compute the order the specification names |
| `Hashtable.CountLeadingZeros` | src/jaegertracingc/hashtable.c:220-221 | the highest set bit of the size is just behind that many zeros of a 32-bit word |
| `Hashtable.Hashtable.Init` | src/jaegertracingc/hashtable.c:75-91 | succeeds exactly if its one allocation does: then an empty table of the initial order over fresh memory, else no buckets |
| `Hashtable.Hashtable.Clear` | src/jaegertracingc/hashtable.c:55-63 | all buckets empty, size zero, order kept |
| `Hashtable.Hashtable.Destroy` | src/jaegertracingc/hashtable.c:65-73 | no buckets are left, and the size is zero |
| `Hashtable.Hashtable.Rehash` | src/jaegertracingc/hashtable.c:98-131 | succeeds exactly if its one allocation does: then the table is the grown one, else unchanged; only the table's own objects are touched |
| `Hashtable.Hashtable.InternalLookup` | src/jaegertracingc/hashtable.c:133-152 | the bucket of the key's masked hash and the first node in it with that key, or null if there is none |
| `Hashtable.Hashtable.Find` | src/jaegertracingc/hashtable.c:154-163 | the value the specification's lookup gives |
| `Hashtable.Hashtable.Store` | src/jaegertracingc/hashtable.c:179-203 | replaces the value of a present key or appends a new entry exactly if the one allocation or the three it needs succeed, else changes nothing |
| `Hashtable.Hashtable.Put` | src/jaegertracingc/hashtable.c:165-203 | succeeds exactly if the allocations on its path do, and is then the specification's put; else the table has grown if it had to and could, and is otherwise as before |
| `Hashtable.Hashtable.Remove` | src/jaegertracingc/hashtable.c:205-213 | the specification's remove, with the size field left as it was |
| `Hashtable.Hashtable.PutTable` | src/jaegertracingc/hashtable.c:249-258 | succeeds exactly if the allocations of all its puts do: then every entry of the source was put, in bucket order, and the source is untouched |
| `Hashtable.Hashtable.CopyFrom` | src/jaegertracingc/hashtable.c:230-266 | succeeds exactly if its own allocation and those of its puts do: then a copy in fresh memory equal to the specification's copy of the source, else no buckets |
| `TableMemory.PutCostIs` | src/jaegertracingc/hashtable.c:165-203 | a put needs one allocation for a present key, three for a new one, and one more to grow |
| `TableSpec.FindIsMapLookup` | src/jaegertracingc/hashtable.c:133-163 | looking in one bucket is looking in the whole map |
| `TableSpec.SlotIsMasked` | src/jaegertracingc/hashtable.c:140-142 | the bucket index has the low bits of the hash and no others, as the mask leaves them |
| `TableSpec.ItemsDistinct` | src/jaegertracingc/hashtable.c:165-203 | keys are distinct across all buckets and the entries are as many as the map's keys |
| `TableSpec.GrowKeepsMap` | src/jaegertracingc/hashtable.c:98-131 | rehashing keeps the invariant (every entry in the bucket its hash names, distinct keys, load below one) and the map |
| `TableSpec.PutIsMapUpdate` | src/jaegertracingc/hashtable.c:165-203 | a put keeps the invariant, updates exactly one key of the map, and counts a new key only |
| `TableSpec.RemoveIsMapRemoval` | src/jaegertracingc/hashtable.c:205-213 | a remove keeps the invariant and takes exactly that key out of the map |
| `TableSpec.PutAllAdds` | src/jaegertracingc/hashtable.c:249-258 | putting entries with new distinct keys adds exactly those entries, through any number of rehashes |
| `TableSpec.CopyKeepsMap` | src/jaegertracingc/hashtable.c:230-266 | a copy satisfies the invariant, has the same map, and its size is exact even where the source's is not |
| `TableRuns.StepRefines` | src/jaegertracingc/hashtable.c:55-266 | every operation, failed puts included, does to the map what its name says and to the size field what the count of stale removes says |
| `TableRuns.RunRefinesMap` | src/jaegertracingc/hashtable.c:55-266 | over every run the table satisfies the invariant, stands for the map the same operations build, and its size is the number of entries plus the effective removes since the last init, clear or copy |
| `TableRuns.RunFind` | src/jaegertracingc/hashtable.c:154-163 | after every run, find is lookup in that map |
| `HashtableRuns.Drive` | src/jaegertracingc/hashtable.c:55-266 | the linked lists of an object driven through any operations hold the table of a run of those that took place, and so its map and size; while memory holds all take place |
| `TableRuns.SizeAssertionsHoldIff` | src/jaegertracingc/hashtable.c:199-260 | the injector's and the copy's size assertions hold exactly when no effective remove is outstanding |
| `TableRuns.SizeAssertionBroken` | src/jaegertracingc/hashtable.c:205-213 | a put and a remove of the same key break them |
| `TableRuns.PutAllOrder` | src/jaegertracingc/hashtable.c:172-177 | adding entries leaves the order alone below load one and raises it once at exactly one |
| `TableRuns.MinimalOrders` | src/jaegertracingc/hashtable.c:215-228 | the two builds differ by one exactly at powers of two |
| `TableRuns.CopySizing` | src/jaegertracingc/hashtable.c:215-266 | with an exact source size the builtin build never rehashes while copying, the loop build at most once, and both end at the same order |
| `TableRuns.FirstGrowth` | src/jaegertracingc/hashtable.c:172-177 | a new table keeps its sixteen buckets up to fifteen entries and doubles with the sixteenth |
| `SipHash.Unpack` | src/jaegertracingc/siphash.c:28-34 | the eight shifted bytes are the little-endian word |
| `SipHash.RunSipRound` | src/jaegertracingc/siphash.c:41-57 | the fourteen updates in place are the round of the definition, two mixes side by side and two across |
| `SipHash.SipRoundBijective` | src/jaegertracingc/siphash.c:41-57 | the round has a two-sided inverse over every lawful word algebra |
| `SipHash.TailWord` | src/jaegertracingc/siphash.c:70-108 | the fall-through switch builds the last padded word for each of the eight tail lengths |
| `SipHash.AbsorbWords` | src/jaegertracingc/siphash.c:76-86 | the loop compresses exactly the full words, in order |
| `SipHash.PaddedWords` | src/jaegertracingc/siphash.c:68-108 | the words of the padded message are the full words and that last word |
| `SipHash.Keyed` | src/jaegertracingc/siphash.c:62-74 | the initial state of the definition |
| `SipHash.Finish` | src/jaegertracingc/siphash.c:117-123 | the finalisation of the definition |
| `SipHash.Hash` | src/jaegertracingc/siphash.c:59-124 | the streaming code computes SipHash-2-4 of the padded word sequence for every message and seed |
| `SipHashBits.BitsLawful` | src/jaegertracingc/siphash.c:28-57 | 64-bit words with wrap-around addition, shifts and rotations obey the laws the proof uses |
| `SipHashBits.RoundPermutesStates` | src/jaegertracingc/siphash.c:41-57 | on 64-bit words the round permutes the four-word states |
| `SipHashBits.Siphash` | src/jaegertracingc/siphash.c:59-124 | the same as Hash for bit-vectors, with the length mod 256 in the top byte |
| `SipHashVector.TestVector` | src/jaegertracingc/siphash.c:25-124 | the published vector of key 00..0f and message 00..0e, which ties down constants, distances and round counts |
| `SipHashVector.ConstantsSpellText` | src/jaegertracingc/siphash.c:62-65 | the initial constants are the big-endian words of the text "somepseudorandomlygeneratedbytes" |
| `LockProtocol.StepInv` | src/jaegertracingc/threading.c:273-295 | every step of every thread keeps the owner map and the program points in agreement |
| `LockProtocol.MutualExclusion` | src/jaegertracingc/threading.c:273-295 | in every reachable state no mutex has two holders and a thread at the blocking lock holds nothing |
| `LockProtocol.EveryJobHeldBoth` | src/jaegertracingc/threading.c:273-295 | a thread that has finished has come out of jaeger_lock holding both mutexes of every job, job by job in order |
| `LockProtocol.DeadlockFree` | src/jaegertracingc/threading.c:273-295 | in every reachable state some unfinished thread can step, unless all are finished |
| `LockProtocol.AllCanFinish` | src/jaegertracingc/threading.c:273-295 | from every reachable state a finite schedule finishes all threads |
| `LockProtocol.LivelockPossible` | src/jaegertracingc/threading.c:275-294 | two callers in lockstep come back to a reachable state they were in, so the loop need not end |
| `ReporterSpec.LongestFit` | src/jaegertracingc/reporter.c:315-318 | counting down stops at the longest prefix that fits, or at none |
| `ReporterSpec.ReportInv` | src/jaegertracingc/reporter.c:425-427 | on the queue, appending a span changes neither what was sent nor what was dropped and keeps the order; which reports append is ReportTo of SpanVector |
| `ReporterSpec.FlushBatchInv` | src/jaegertracingc/reporter.c:298-557 | a batch keeps conservation and order exactly when it does not put back spans it destroyed |
| `ReporterSpec.FlushInv` | src/jaegertracingc/reporter.c:559-575 | a whole flush keeps conservation and order exactly when none of its batches puts destroyed spans back, whatever the sends do |
| `ReporterSpec.RunInv` | src/jaegertracingc/reporter.c:399-575 | so does every run of appended reports and such flushes; that the reporter's harmless runs are these runs is SpanVector.HarmlessIsQueueRun |
| `ReporterSpec.RunConserves` | src/jaegertracingc/reporter.c:399-575 | over such runs of the queue each appended span is in exactly one of sent, dropped and queued, and sent followed by queued is the reported order without the dropped ones; for all runs of the reporter see SpanVector.RunSoundIff |
| `ReporterSpec.InvIffConserves` | src/jaegertracingc/reporter.c:399-575 | the invariant of the queue is exactly conservation in order |
| `Batching.LongestFitStops` | src/jaegertracingc/reporter.c:315-322 | a batch never reaches past the first span that fits no packet, and is empty only in front of it |
| `Batching.FitsIff` | src/jaegertracingc/reporter.c:315-318 | a batch fits exactly if the overhead and the costs of all its spans do |
| `Batching.FlushToOversized` | src/jaegertracingc/reporter.c:256-322 | with sends succeeding a flush sends exactly the spans before the first oversized one, in order and within the limit, drops exactly that one and stops |
| `Batching.GreedyOptimal` | src/jaegertracingc/reporter.c:298-349 | no split of the queue into consecutive fitting batches has fewer packets than taking the longest prefix each time |
| `Batching.FlushOptimal` | src/jaegertracingc/reporter.c:504-575 | when every span fits alone and sends succeed, flush sends everything in order in the fewest packets possible |
| `Batching.FlushesEmptyQueue` | src/jaegertracingc/reporter.c:559-575 | with sends succeeding, k oversized spans need at most k + 1 flush calls |
| `SpanVector.AlignedLeast` | src/jaegertracingc/vector.c:70-73 | doubling stops at the least capacity of the form 10 * 2^e that is enough |
| `SpanVector.FlushOfQueue` | src/jaegertracingc/reporter.c:504-575 | whatever the vector is like, a flush does to the queue what the queue-level flush does |
| `SpanVector.HealthyAfterBatchIff` | src/jaegertracingc/reporter.c:298-557 | outcome by outcome, exactly when reports work after a batch |
| `SpanVector.HealthyAfterGoodFlushIff` | src/jaegertracingc/reporter.c:504-575 | with sends and memory, reports work after a flush exactly if the queue was empty on a healthy vector, or an oversized span stopped the flush behind a sent batch or on a vector at most one over its capacity |
| `SpanVector.ReportSoundIff` | src/jaegertracingc/reporter.c:399-444 | a report conserves spans and fails no assertion exactly if the vector is healthy, or memory runs out before the vector is touched |
| `SpanVector.StepSoundIff` | src/jaegertracingc/reporter.c:399-575 | the same of every call, flushes included |
| `SpanVector.RunSoundIff` | src/jaegertracingc/reporter.c:399-575 | over every run of reports and flushes with any outcomes, spans are conserved in order and no assertion has failed after every call, exactly when every call is harmless |
| `SpanVector.HarmlessReportIff` | src/jaegertracingc/reporter.c:399-444 | with memory for everything a report is harmless exactly on a healthy vector |
| `SpanVector.HarmlessIsQueueRun` | src/jaegertracingc/reporter.c:399-575 | then the queue is that of a queue-level run of the reports that queued their span and the flushes |
| `Reporter.RemoteReporter.Reserve` | src/jaegertracingc/vector.c:63-90 | keeps the cells below the old capacity and clears all from there on, also those below the length |
| `Reporter.RemoteReporter.Report` | src/jaegertracingc/reporter.c:399-444 | the report of SpanVector on the object, in all branches: queued, not queued, aborted on a NULL buffer, torn with a length beyond the capacity; the cells hold exactly the queue in every case |
| `Reporter.RemoteReporter.ShrinkToFit` | src/jaegertracingc/reporter.c:309-318 | the loop finds the longest fitting prefix |
| `Reporter.RemoteReporter.DropFirst` | src/jaegertracingc/reporter.c:283-289 | the stolen buffer is back without its first span |
| `Reporter.RemoteReporter.KeepRest` | src/jaegertracingc/reporter.c:324-333 | a new vector holds exactly the spans behind the batch, in order |
| `Reporter.RemoteReporter.SetAside` | src/jaegertracingc/reporter.c:324-348 | what becomes of buffer, length and capacity in each of the four allocation outcomes |
| `Reporter.RemoteReporter.FlushBatch` | src/jaegertracingc/reporter.c:504-557 | the batch step of SpanVector: queue, NULL buffer and capacity left behind |
| `Reporter.RemoteReporter.Flush` | src/jaegertracingc/reporter.c:559-575 | the flush of SpanVector, and reports work after it exactly if HealthyAfterFlush holds, also for a failed or an empty flush; the loop ends by queue length |
| `Reporter.ReportFlushReport` | src/jaegertracingc/reporter.c:311-313 | reporting, flushing and reporting again always fails the assertion on the appended slot |
| `Reporter.FailedSendLosesSpan` | src/jaegertracingc/reporter.c:546-556 | eleven spans, a failed send of ten and one more report leave NULL in the eleventh cell: that span is neither sent, dropped nor queued |
| `Reporter.Drive` | src/jaegertracingc/reporter.c:399-575 | an object driven through any calls is the vector of the run with the queue in its cells; it is sound after every call exactly when all are harmless, and then has the state of the queue's run |
| `Clock.Subtract` | src/jaegertracingc/clock.c:41-65 | the difference is exact for all integers, its nanoseconds lie in [0, 10^9] and reach 10^9 exactly for the fields named, and the result is true exactly when lhs >= rhs but for that case |
| `TokenBucket.CheckInv` | src/jaegertracingc/token_bucket.c:30-53 | one check keeps 0 <= balance <= max and spends no more than was there plus what accrued |
| `TokenBucket.RunInv` | src/jaegertracingc/token_bucket.c:30-53 | so does every run on a monotone clock |
| `TokenBucket.RunBounds` | src/jaegertracingc/token_bucket.c:19-53 | over every run, granted cost plus final balance is at most starting balance plus rate times elapsed time |
| `TokenBucket.UnitGranted` | src/jaegertracingc/token_bucket.c:44-52 | a unit asked for at least 1/rate seconds after the previous check is granted |
| `CreditLaws.GrantedIff` | src/jaegertracingc/token_bucket.c:40-52 | a check is granted exactly if the bucket can hold the cost, and what was left and what accrued cover it |
| `CreditLaws.BalanceAfter` | src/jaegertracingc/token_bucket.c:44-52 | the balance afterwards is what was left and what accrued, up to the maximum, less what was granted |
| `CreditLaws.RunExactIff` | src/jaegertracingc/token_bucket.c:30-53 | over a run no credit is lost or made up exactly if none spills over the maximum |
| `CreditLaws.BurstGrants` | src/jaegertracingc/token_bucket.c:30-53 | of unit requests at once as many are granted as the balance covers |
| `CreditLaws.LimiterBurst` | src/jaegertracingc/sampler.c:138-149 | a new limiter grants n + 1 traces at once exactly if n + 1 is at most its rate, or one |
| `CreditLaws.LimiterBound` | src/jaegertracingc/sampler.c:138-149 | and over any run no more than that burst and its rate times the time since it was made |
| `TokenBucket.TokenBucket.CheckCredit` | src/jaegertracingc/token_bucket.c:30-53 | the step the runs are made of; on a monotone clock the assertion on the subtraction holds |
| `Samplers.RateLimitingSampler.IsSampled` | src/jaegertracingc/sampler.c:111-136 | one unit of credit decides, and the two tags follow unless memory is short |
| `Samplers.LimiterInv` | src/jaegertracingc/sampler.c:138-149 | a new limiter's bucket satisfies the invariant and can hold a unit |
| `Samplers.GuaranteedThroughputSampler.IsSampled` | src/jaegertracingc/sampler.c:151-208 | the bucket moves the same way in both branches, the decision is the draw or the limiter's, and the tags name the sampler that decided |
| `Samplers.GuaranteedAtLeastLimiter` | src/jaegertracingc/sampler.c:151-208 | over every run the inner bucket has the states of a standalone limiter at the same times, whatever the draws, and the decision is at least the limiter's |
| `CreditLaws.DecisionIff` | src/jaegertracingc/sampler.c:151-208 | over every run the decision is true exactly if the draw is lucky or a limiter run on the same times would grant |
| `CreditLaws.TagsComplete` | src/jaegertracingc/sampler.c:122-134 | with memory a decision leaves the sampler's kind and parameter, in this order |
| `Samplers.ThroughputGuaranteed` | src/jaegertracingc/sampler.c:111-208 | in every run a call at least 1/rate seconds after the previous one is sampled |
| `Vector.Vector.Reserve` | src/jaegertracingc/vector.c:63-90 | old cells kept, new cells zero, capacity enough, failure changes nothing |
| `Vector.Vector.Insert` | src/jaegertracingc/vector.c:92-135 | the contents get exactly the element at exactly that position, or stay on failure |
| `Vector.Vector.LowerBound` | src/jaegertracingc/vector.c:174-194 | the loop returns the result of the code's search on any contents |
| `Vector.SearchIsProbe` | src/jaegertracingc/vector.c:174-194 | on contents with a bound the search depends on the length and the bound only |
| `Vector.LowerBoundRightIff` | src/jaegertracingc/vector.c:174-194 | that is the true bound exactly at the end, the last position, or the last but one for lengths that meet three |
| `Adaptive.SampleSortedIff` | src/jaegertracingc/sampler.c:344-398 | a call keeps the index strictly sorted exactly when the name it inserts, if any, is new and belongs at such a position |
| `Adaptive.Misplaced` | src/jaegertracingc/sampler.c:378-385 | inserting a name that belongs in front of two others leaves the index unsorted |
| `Adaptive.RunSortedIff` | src/jaegertracingc/sampler.c:344-410 | the index is sorted after every call of a run exactly when all its insertions are well placed |
| `Adaptive.RunLength` | src/jaegertracingc/sampler.c:368-370 | over every run the index never grows past the larger of its first length and the cap |
| `Adaptive.RunIsMapRun` | src/jaegertracingc/sampler.c:344-410 | over such runs with memory the index is a map from operation to its own sampler state |
| `Adaptive.OthersLeaveStateAlone` | src/jaegertracingc/sampler.c:356-398 | an operation is known after a run exactly if it was at the start or met room, and its state is that of its sampler run alone on its own calls since |
| `Adaptive.OwnFromStart` | src/jaegertracingc/sampler.c:356-366 | an operation known from the start has its first state and all its calls as history |
| `Adaptive.EntryStateIsOwn` | src/jaegertracingc/sampler.c:344-398 | so over well-placed runs the vector's entry for an operation, if any, holds the state of its own history |
| `AdaptiveLaws.DecideIff` | src/jaegertracingc/sampler.c:344-410 | over well-placed runs an operation is sampled exactly if the draw is lucky or a limiter run on its own calls, or a new one if it is new and meets room, grants a trace; without room the draw decides |
| `AdaptiveLaws.FirstCallSampled` | src/jaegertracingc/sampler.c:368-398 | the first call of an operation that meets room is sampled, whatever the draw |
| `AdaptiveLaws.OperationThroughput` | src/jaegertracingc/sampler.c:356-366 | a call at least 1/rate seconds after the operation's previous one is sampled, whatever the others did |
| `AdaptiveLaws.LessIff` | src/jaegertracingc/sampler.c:338-339 | names are ordered by the first byte in which they differ |
| `Adaptive.BsearchSorted` | src/jaegertracingc/sampler.c:338-339 | bisection of a sorted index finds the name if it is there |
| `Adaptive.AdaptiveSampler.FindSampler` | src/jaegertracingc/sampler.c:328-342 | the result of bisecting the index, sorted or not; absent also without memory |
| `Adaptive.AdaptiveSampler.IsSampled` | src/jaegertracingc/sampler.c:344-410 | the index and the decision after a call on any index, in all branches |
| `CStrings.EncodeDecodeHex` | src/jaegertracingc/strings.h:37-64 | writing back a digit that was read gives its lower-case form |
| `CStrings.EncodeHex` | src/jaegertracingc/strings.h:57-64 | the digit written is read back as the number |
| `CStrings.DigitValues` | src/jaegertracingc/strings.h:37-55 | exactly the sixteen digits and the capitals of six of them have a value, which is their place, in either case |
| `CStrings.LowerCase` | src/jaegertracingc/strings.h:189-196 | the 26 capitals become small letters and no other byte changes |
| `CStrings.ToLowercase` | src/jaegertracingc/strings.h:189-196 | the buffer holds the lower-case string and its terminator |
| `CStrings.StrtokFront` | src/jaegertracingc/strings.h:204-205 | tokenising gives back a token in front of a delimiter or the end, and leaves what follows |
| `CStrings.StrtoullHex` | src/jaegertracingc/trace_id.c:64-76 | a string of hex digits is read whole, saturating at 64 bits |
| `TextLaws.NumberRead` | src/jaegertracingc/trace_id.c:64-76 | blanks, a sign, 0x and digits are read whole, to the value of the digits with the sign |
| `TextLaws.ScanWordIff` | src/jaegertracingc/span.c:669-682 | and no other token is accepted but an empty one |
| `Uri.DecodeEncodeUri` | src/jaegertracingc/strings.h:66-182 | decoding inverts encoding on every byte string |
| `Uri.DecodePlain` | src/jaegertracingc/strings.h:88-95 | text without a percent sign is its own decoding |
| `Uri.EncodedIsPrintable` | src/jaegertracingc/strings.h:139-182 | encoded text is printable ASCII without blanks |
| `Uri.EncodeByteIs` | src/jaegertracingc/strings.h:143-180 | by code, which bytes stand for themselves; every other one becomes a percent sign and its two digits, high one first |
| `Uri.EscapeDecoded` | src/jaegertracingc/strings.h:107-121 | a percent sign and two digits of either case give the byte they stand for |
| `Uri.MalformedKept` | src/jaegertracingc/strings.h:96-133 | any other percent sign is kept, with what was taken for a digit in lower case |
| `Uri.FirstNibbleCase` | src/jaegertracingc/strings.h:96-113 | the case of a first hex digit is lost whether or not the escape turns out well formed |
| `Uri.Turn` | src/jaegertracingc/strings.h:85-122 | one turn of the three-state machine, for whatever follows, leaves the decoding of the whole input unchanged |
| `Uri.DecodeUriValue` | src/jaegertracingc/strings.h:66-137 | the loop writes the decoding defined by cases on the front of the string, within the input's length, and its assertion holds exactly when no decoded byte is 0x7f |
| `Uri.EncodeUriValue` | src/jaegertracingc/strings.h:139-182 | the loop writes the encoding, and three times the input is always enough room |
| `SpanText.ScanTraceIdBack` | src/jaegertracingc/trace_id.c:30-79 | every 128-bit trace id is scanned back from its text of at most 32 characters |
| `SpanText.ScanFormat` | src/jaegertracingc/span.c:617-694 | for every 128-bit trace id, 64-bit span id and 8-bit flags scanning the text gives the three back, and the text has at most 52 characters |
| `SpanText.FormatIsPlain` | src/jaegertracingc/span.c:617-638 | URI decoding leaves the text unchanged |
| `TextLaws.TraceIdIsOneNumber` | src/jaegertracingc/trace_id.c:30-45 | a trace id is printed as one 128-bit number |
| `TextLaws.FieldsAreMinimal` | src/jaegertracingc/span.c:617-638 | no field of the text begins with a zero unless it is zero |
| `TextLaws.TwoDigits` | src/jaegertracingc/span.c:633-637 | the most significant digit comes first |
| `TextLaws.ScanContextIff` | src/jaegertracingc/span.c:655-683 | three fields are accepted exactly if each is a number and the first has at most 32 characters, split at the last 16 |
| `TextLaws.ScanContextValue` | src/jaegertracingc/span.c:655-688 | of digits the last 16 of the first field are the low half, the rest the high half, and the flags are cut to a byte |
| `TextLaws.MinusWraps` | src/jaegertracingc/trace_id.c:64-76 | a number with a minus sign becomes its two's complement |
| `TextLaws.FourthIgnored` | src/jaegertracingc/span.c:655-678 | what follows a third colon is ignored |
| `TextLaws.TooFewFields` | src/jaegertracingc/span.c:656-660 | one or two fields are rejected |
| `SpanText.TraceIdFormat` | src/jaegertracingc/trace_id.c:30-45 | as much of the text as fits is in the buffer, terminated, and the whole length is returned |
| `SpanText.SpanContextFormat` | src/jaegertracingc/span.c:617-638 | as much of the text as fits is in the buffer, terminated, for every buffer length; the result is the whole length if not even the trace id fits, and the length without the trace id otherwise |
| `SpanText.TraceIdScan` | src/jaegertracingc/trace_id.c:47-79 | the scan of the specification, split at the last 16 characters |
| `SpanText.ScanFromStart` | src/jaegertracingc/span.c:655-683 | reading token by token is reading three tokens at once, with anything behind them ignored |
| `SpanText.SpanContextScan` | src/jaegertracingc/span.c:640-694 | succeeds exactly if the copy can be allocated and the string scans; only then the context changes, to what it scans to |
| `BinaryFormat.BigEndianInverse` | src/jaegertracingc/propagation.c:213-232 | reading big-endian bytes inverts writing them at every width |
| `BinaryLayout.BigEndianAt` | src/jaegertracingc/propagation.c:461-472 | each byte of a number is the one of its weight, most significant first |
| `BinaryLayout.MessageLayout` | src/jaegertracingc/propagation.c:474-485 | offsets and byte order of trace id, span id, flags and count, and where the entries start |
| `BinaryLayout.EntryLayout` | src/jaegertracingc/propagation.c:494-503 | an entry is the length of its key, the key, the length of its value, the value |
| `BinaryLayout.EntriesInOrder` | src/jaegertracingc/propagation.c:487-505 | entry i stands behind those in front of it |
| `BinaryLayout.NegativeCount` | src/jaegertracingc/propagation.c:265-265 | a count of 2^31 or more is negative to the loop, and no entry is read |
| `BinaryLayout.LongString` | src/jaegertracingc/propagation.c:250-254 | a string of 2^31 bytes or more is never read |
| `BinaryLayout.CutAtNul` | src/jaegertracingc/propagation.c:255-283 | a key or value with a NUL in it comes back cut off there |
| `BinaryFormat.DecodeEncode` | src/jaegertracingc/propagation.c:203-511 | extracting from an injected message and any suffix gives identifiers, flags and entries back and leaves exactly the suffix |
| `BinaryFormat.BinaryRoundTrip` | src/jaegertracingc/propagation.c:203-511 | so the extracted table stands for the same map, whatever the two hash seeds |
| `BinaryFormat.ShortMessage` | src/jaegertracingc/propagation.c:203-354 | a message that ends early, or whose count exceeds its entries, is corrupted |
| `BinaryFormat.StrictPrefixRejected` | src/jaegertracingc/propagation.c:203-354 | every strict prefix of an injected message is corrupted |
| `BinaryFormat.ReadableIffSizeExact` | src/jaegertracingc/propagation.c:484-506 | an injected message can be read exactly when the table's size field is exact |
| `BinaryFormat.CutMessage` | src/jaegertracingc/propagation.c:264-297 | for a message cut short that is a matter of the length: behind the first entry, within a key or a value length |
| `BinaryCodec.ReadBinary` | src/jaegertracingc/propagation.c:203-234 | the next big-endian integer, or nothing if the input is too short |
| `BinaryCodec.ParseBaggageBinary` | src/jaegertracingc/propagation.c:236-301 | on success the table got exactly the entries of the format, in order, and the reader stands behind them; corrupted only if the format says so; a corrupted message frees a buffer twice exactly if it fails behind a complete entry and in front of the next value |
| `BinaryCodec.ReadHeader` | src/jaegertracingc/propagation.c:329-333 | the identifiers of the format, or failure exactly if the input is too short |
| `BinaryCodec.ExtractFromBinary` | src/jaegertracingc/propagation.c:303-354 | while memory holds, the decoded context, or corrupted with a null context and one decoding error, as the format decides; unknown exactly if an allocation failed; which corrupted messages free a buffer twice |
| `BinaryCodec.WriteBucket` | src/jaegertracingc/propagation.c:488-504 | a bucket's entries are written in order, or a prefix of them on failure |
| `BinaryCodec.InjectIntoBinary` | src/jaegertracingc/propagation.c:453-511 | on success exactly the message was appended, on failure a prefix of it, and a writer that takes everything meets success; the size assertion holds exactly when the size field counts the entries |
| `BinaryCodec.CarryBinary` | src/jaegertracingc/propagation.c:303-511 | injecting and extracting through the heap objects never finds corruption and gives the context back, and with a willing writer and memory both complete |
| `BinaryCodec.ExtractTruncated` | src/jaegertracingc/propagation.c:303-354 | a strict prefix gives a null context and one decoding error exactly while memory holds; a buffer is freed twice exactly for the lengths CutMessage names |
| `HeaderFormat.ParseMapBack` | src/jaegertracingc/strings.h:198-234 | a printed list of pairs of nonempty, separator-free parts is parsed back |
| `HeaderFormat.PairsComeBackIff` | src/jaegertracingc/strings.h:198-234 | and no other list is |
| `PairLaws.ParsePairIff` | src/jaegertracingc/strings.h:204-208 | a text is a pair exactly if a separator has something in front of it and something behind it |
| `PairLaws.ParseMapIff` | src/jaegertracingc/strings.h:223-233 | a list is parsed exactly if every nonempty piece between its commas is a pair |
| `PairLaws.ExtraParts` | src/jaegertracingc/strings.h:204-205 | only the first two parts of a pair count |
| `HeaderLaws.DefaultConfigWellFormed` | src/jaegertracingc/options.h:46-53 | the default header names meet the assumptions of the laws |
| `HeaderLaws.TraceStep` | src/jaegertracingc/propagation.c:57-69 | a trace header, in any case over HTTP, sets identifiers and flags to those injected and nothing else |
| `HeaderLaws.EntryStep` | src/jaegertracingc/propagation.c:94-119 | a baggage header puts its entry under the normalized key, is ignored if the key is empty, and aborts on 0x7f over HTTP |
| `HeaderLaws.PermutationDelivered` | src/jaegertracingc/propagation.c:375-434 | any permutation of the injected headers is a delivery of them |
| `HeaderLaws.AllArrives` | src/jaegertracingc/propagation.c:38-162 | carriable contexts come back from every delivery: any order, repetition, unrelated headers between, and over HTTP any case of names |
| `HeaderLaws.StepsStop` | src/jaegertracingc/strings.h:77-83 | a value with 0x7f stops an HTTP extraction wherever it comes |
| `HeaderLaws.HeadersComeBackIff` | src/jaegertracingc/propagation.c:38-162 | a context comes back exactly when every baggage key is nonempty and, over HTTP, lower-case with a value free of 0x7f |
| `HeaderLaws.HeaderRoundTrip` | src/jaegertracingc/propagation.c:375-451 | the same for a reachable table, the default names and every permutation of the injected headers |
| `HeaderLaws.DebugOrderIff` | src/jaegertracingc/propagation.c:70-85 | the order of a debug and a trace header is immaterial exactly when the trace flags have both bits |
| `SpecialHeaders.BaggageStep` | src/jaegertracingc/propagation.c:86-93 | a baggage header puts exactly the pairs it lists, replacing values already there, and changes nothing else |
| `SpecialHeaders.BaggageRejectedIff` | src/jaegertracingc/propagation.c:86-93 | a baggage header is rejected exactly if some piece between its commas is not a pair |
| `SpecialHeaders.BaggageAndTrace` | src/jaegertracingc/propagation.c:57-93 | with a trace header, in either order, it gives a context with just those identifiers and entries |
| `SpecialHeaders.DebugArrives` | src/jaegertracingc/propagation.c:70-85 | a debug header alone gives a context with its id and the debug and sampled flags |
| `SpecialHeaders.DebugFlags` | src/jaegertracingc/propagation.c:82-84 | the two flags are set and the other six kept |
| `SpecialHeaders.MalformedListRejected` | src/jaegertracingc/propagation.c:86-93 | a malformed list is rejected behind any headers that are not a failure themselves, whatever follows |
| `SpecialHeaders.BadTraceRejected` | src/jaegertracingc/propagation.c:57-69 | so is a trace header whose value does not scan |
| `SpecialHeaders.InjectedLook` | src/jaegertracingc/propagation.c:389-426 | names and values of the injected headers: as they are in a text map, printable ASCII over HTTP |
| `SpecialHeaders.DefaultConfigApart` | src/jaegertracingc/options.h:46-53 | the default names are different and in normal form |
| `HeaderCodec.ParseKeyValue` | src/jaegertracingc/strings.h:198-215 | corrupted exactly if there are not two tokens, unknown exactly if an allocation failed, else the pair is put |
| `HeaderCodec.ParseCommaSeparatedMap` | src/jaegertracingc/strings.h:217-234 | on success all pairs of the text were put in order; corrupted only if some pair is malformed; unknown exactly if an allocation failed |
| `HeaderCodec.NormalizeKey` | src/jaegertracingc/propagation.c:47-55 | the name as copied or lower-cased through a buffer of its own length |
| `HeaderCodec.DecodeInto` | src/jaegertracingc/propagation.c:58-63 | the value as a C string after copying or URI decoding, or the failed assertion |
| `HeaderCodec.ExtractTextMapCallback` | src/jaegertracingc/propagation.c:38-127 | while memory holds, code and object after a header are those of the value-level step, in all five branches |
| `HeaderCodec.ForEachKey` | src/jaegertracingc/propagation.c:140-143 | while memory holds, the callback over all headers is the value-level run |
| `HeaderCodec.ExtractFromTextMap` | src/jaegertracingc/propagation.c:129-201 | while memory holds, the context of the specification, or success without one for an empty context, or corrupted with one decoding error; null on every error |
| `HeaderCodec.WriteBucket` | src/jaegertracingc/propagation.c:396-431 | an attempt for every entry, decided by memory and the writer; the headers written are those whose attempt succeeded, and the code is that of the last attempt |
| `HeaderCodec.InjectIntoTextMap` | src/jaegertracingc/propagation.c:375-451 | the trace header, then attempts bucket by bucket up to the first bucket whose last attempt fails; success exactly when the trace header and the last entry of every bucket were taken; the headers written are those whose attempt succeeded |
| `HeaderCodec.FormatForHeader` | src/jaegertracingc/propagation.c:384-388 | the 54-byte buffer holds the whole text of every context |
| `HeaderCodec.KeptAllIff` | src/jaegertracingc/propagation.c:399-431 | no entry is missing exactly when every attempt succeeded |
| `HeaderCodec.KeptEntries` | src/jaegertracingc/propagation.c:399-431 | and then the headers are those of the entries, in order |
| `HeaderCodec.LogSucceedsIff` | src/jaegertracingc/propagation.c:404-426 | all attempts succeed exactly when memory held and the writer took what it was given |
| `HeaderCodec.InjectedAll` | src/jaegertracingc/propagation.c:375-434 | if nothing failed, the headers are those of the round-trip laws |
| `HeaderCodec.SuccessMeansCompleteIff` | src/jaegertracingc/propagation.c:393-432 | a success code means that nothing is missing exactly for tables without a bucket of two entries |
| `HeaderTrip.CarryHeaders` | src/jaegertracingc/propagation.c:129-451 | injected through a writer that takes every header, carried in any order and extracted into another heap while memory holds, a context comes back exactly when it can be carried, with success on both sides |

## Left out

- Sockets, address resolution, HTTP and JSON parsing and the sampling manager's transport: input, output and libraries.
- Protobuf messages: only an additive packed size, a base and a cost per span, enters the reporter.
- Tags other than the samplers' own, logs, spans, tracer wiring, metrics other than the decoding-error counter, logging, and random numbers: easy or generated code.
- Memory lifetimes: freeing is modelled for the two buffers of the binary baggage parser only; leaks are not modelled, and allocation that the code does not check is taken to succeed.
- The custom carrier: it only forwards to callbacks.
- `jaeger_adaptive_sampler_update` and loading samplers from strategies: the update stores no name for a new entry, and loading ends in the C library's sort; the index starts from any one.
- Adaptive.AdaptiveSampler.FindSampler: the C library's binary search is taken to bisect as glibc does; on an unsorted index the C standard leaves its result open.
- Runs after damage: a run of the reporter ends with the first report that aborts or overwrites spans, and destroyed spans that were put back count as queued.
- The key hash: the table takes any hash; the per-process seed is not modelled. Bucket counts are unbounded, so the shift overflow at order 32 is not modelled.
- Floating-point rounding: credits, rates and times are reals.
- Locking inside the reporter, the samplers and the contexts: each operation is taken as atomic, and the lock protocol has callers that hold nothing when they enter.
- HeaderCodec.ForEachKey: the reader is taken to call back for each header in turn and to stop at the first error.
- BinaryCodec.ExtractFromBinary: the reader is taken to give fewer bytes than asked for only at the end of its input.
- BinaryFormat.DecodeEncode: counts and lengths below 2^31, the range of the code's signed comparisons, and strings without NUL.
- Character classes are those of the C locale, where a byte from 128 up is in no class.
