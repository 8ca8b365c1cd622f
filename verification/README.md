# Macha node: a Dafny model

Macha is a media node: it keeps a clustered filesystem, imports media into it, catalogues it and
serves it. This project models the parts of the node whose behaviour is hardest to see from the
code, and proves what they promise.

* **Retained-memory ledger** (`RetainedMemory*.dfy`). One ledger admits every buffer the node
  holds, for four classes of work in order of priority: control, viewer, loader, speculative.
  Threads inside `acquire` check, count themselves as waiters, ask reclaimable leases back with
  the lock released, sleep and wake. A run is any interleaving of these steps with
  `try_acquire`, `restore`, `release` and `stop`. Byte counters are uint64 and wrap.
* **JSON** (`Json*.dfy`). The byte-level parser and the canonical printer, against the grammar of
  sections 2 to 7 of RFC 8259 given as derivation trees, the UTF-8 table of RFC 3629 and the
  surrogate pairs of RFC 2781.
* **Observations** (`Observation*.dfy`). Log-linear histograms over all of uint64, quantiles, and
  a registry whose recorder writes windows as differences of snapshots. A tick is three steps,
  with probes landing in between. Below that, a record is three atomic steps and a snapshot one
  read for each cell, interleaved in any way (`ObservationAtomics.dfy`).
* **Ingest** (`Ingest*.dfy`). Workers take a copy of a job and write it back while users act on
  the stored one; a file is copied through a partial that a merge may roll back; destinations
  within a job are made distinct.
* **Paging** (`Paging*.dfy`), **item availability** (`Availability*.dfy`), **retries**
  (`Retry.dfy`), **memory configuration** (`MemoryConfig.dfy`) and the **node codec**
  (`Codec*.dfy`).

Operations the source performs by changing fields are classes whose methods are proved equal to
pure functions of the state before; the laws are then about those functions, over all inputs and
all runs. `Arithmetic.dfy`, `Words.dfy`, `Sequences.dfy` and `Options.dfy` hold what several
modules need.

Some promises turn out not to hold of the code as written. For each of these there is a lemma
with an input that shows it, and the condition under which the promise does hold:

* A sleeping loader or speculative `acquire` can be admissible, because a waiter that is granted
  lowers its waiter count without a notify (`AdmissibleSleeper`). It never happens to control or
  viewer, and always ends when the lease that caused it is given back
  (`NeverAdmissibleAsleepIff`, `NoLostWakeup`).
* `restore` is unbounded, so it can bring the 64-bit count of used bytes round past zero. For
  every choice of limits, each of the byte laws (headroom, counters, durable budgets, immediate
  admission of control and viewer, no lost wakeup) holds over all runs that restore at most a
  budget of bytes exactly when capacity plus budget is below 2^64 (`HeadroomExactly`,
  `CountersExactly`, `BudgetsExactly`, `ControlServedExactly`, `ViewerServedExactly`,
  `WakeupsExactly`). Waiter counts, the priority gate and shedding hold always.
* A copy is crash-safe, over all sources and runs, exactly when merges keep to three restrictions
  (`SafeExactly`). A merge to a *longer* earlier state can make a commit move the copy ahead of its
  place in the source, and the file is then completed with the wrong bytes
  (`LongerRollbackCorrupts`, `CommitExact`). A merge between the look at the partial and its
  opening that *shortens* it completes the file with zeros in place of the bytes that went
  (`EarlyRollbackZeroes`, `OpenExact`, `ShortOpenCorrupts`). A merge once the loop has made its
  last commit goes unseen, since the commit after the loop is of a clean handle and looks at
  nothing (src/filesystem/filesystem.cpp:1218-1233), and completes the file with less than the
  source (`LateRollbackTruncates`, `RenameExact`). The comment at src/acquisition/ingest.cpp:1934-1938 considers only a partial that
  is a prefix of the copy.
* A pause or cancel is lost when a worker that is told to stop writes back the state it was
  working in (`PauseLost`). It stands exactly until such a store (`StopStands`), and in every
  interleaving exactly when no worker is at work on the job as it is made (`StopStandsForGood`).
  The same store can write an old pause over a resume (`ResumeLost`, `ResumeStands`,
  `ResumeStandsForGood`).
* A series named `observation.overflow` hides the overflow series, and a counter that takes one
  of the registry's own names is misreported in the window in which it appears
  (`OverflowHidden`, `ReservedCounter`). Every recorded value is counted exactly once, over all
  windows, exactly when no series has that name or no value was without room
  (`AllCountedExactly`).
* A snapshot taken in the middle of a record may have its count without its maximum
  (`MaxMayBeLate`); a quantile of a window falls short of its value exactly when the maximum does
  (`WindowQuantile`).
* In a catalogue with a cycle an item can count several times in one set (`OwnParentTwice`). It
  counts once in each ancestor exactly when its own parent chain ends or goes once round the whole
  catalogue (`AncestorsOnceExactly`), and all sets have just their members exactly when that holds
  of every item with files (`MembersExactly`).
* Following cursors over a list that starts with the empty key, one entry to a page, reads the
  first page for ever (`EmptyKeyRepeats`, `SteadyExactly`). Over changing lists such a traversal
  goes wrong exactly when the first two, the first with more to come, start with the empty key
  (`TraversalExactly`).
* Reserves that are shrunk to the 1 MiB floor need not fit any more (`FlooredReservesRefused`,
  `ReservesFitExactly`). A total of parts that wraps is compared wrapped, so the parts are left
  as they are or shrunk by too little, and never come within the limit (`WrappedTotals`,
  `WrappedTotalUnshrunk`, `WrappedTotalExceeds`). They come within it exactly when the total does
  not wrap and what the floor adds fits the room the shares leave (`LimitKeptExactly`).

## Model

| member | source | states |
|---|---|---|
| RetainedMemoryLedgers.Create | src/retained_memory.hpp:172-187 | a ledger is made exactly when the five sizes are non-zero and the class reserves together fit the capacity |
| RetainedMemoryLedgers.RetainedMemoryLedger.Enter | src/retained_memory.hpp:299-311 | an entry takes the next id and is charged to exactly the counters it belongs to, modulo 2^64 |
| RetainedMemoryLedgers.RetainedMemoryLedger.TryAcquire | src/retained_memory.hpp:334-358 | grants exactly when not stopping and the admission rule passes; otherwise nothing changes |
| RetainedMemoryLedgers.RetainedMemoryLedger.Restore | src/retained_memory.hpp:316-332 | always enters the lease, charging every counter modulo 2^64 |
| RetainedMemoryLedgers.RetainedMemoryLedger.Release | src/retained_memory.hpp:360-377 | takes a live lease out of every counter it was charged to and notifies; an unknown id changes nothing |
| RetainedMemoryLedgers.RetainedMemoryLedger.RequestShedding | src/retained_memory.hpp:232-244 | marks and returns, in id order, exactly the unasked reclaimable leases of strictly lower classes |
| RetainedMemoryLedgers.RetainedMemoryLedger.AcquirePass | src/retained_memory.hpp:262-313 | one pass of the acquire loop: give up, be admitted, hand out callbacks, or wait, with the waiter count kept through each |
| RetainedMemoryLedgers.RetainedMemoryLedger.Stop | src/retained_memory.hpp:388-392 | stopping is set and nothing else |
| RetainedMemoryRuns.AvailableAntitone | src/retained_memory.hpp:189-230 | admission is antitone in every byte counter and every gating waiter count |
| RetainedMemoryRuns.RunKeeps | src/retained_memory.hpp:246-392 | accounting, budgets, waiter counts, asks and the justification of every sleeper hold after every interleaving |
| RetainedMemoryRuns.RunKeepsBooks | src/retained_memory.hpp:232-314 | ids, waiter counts and asks hold after every interleaving, even where byte counters wrap |
| RetainedMemoryLaws.NoLostWakeup | src/retained_memory.hpp:246-314 | an admissible sleeper is of a lower class, and a live lease granted after it fell asleep to a waiter that gated it wakes it when released |
| RetainedMemoryLaws.NeverAdmissibleAsleepIff | src/retained_memory.hpp:271-298 | a sleeper of a class is never admissible, over all runs, exactly for control and viewer |
| RetainedMemoryLaws.AdmissibleSleeper | src/retained_memory.hpp:297-298 | for each lower class a run that leaves an admissible sleeper |
| RetainedMemoryLaws.QuietMeansOversized | src/retained_memory.hpp:222-229 | with every lease back and every caller asleep, only requests beyond their class's durable budget, or speculative ones behind such a loader, are left |
| RetainedMemoryLaws.ControlHeadroom | src/retained_memory.hpp:195-197 | law 1: bytes granted to non-control classes never exceed capacity less the control reserve, whatever was restored |
| RetainedMemoryBounds.HeadroomExactly | src/retained_memory.hpp:316-332 | for all limits and restore budgets, law 1 holds over all runs within the budget exactly when capacity plus budget is below 2^64 |
| RetainedMemoryBounds.CountersExactly | src/retained_memory.hpp:299-332 | every byte counter is the sum over live leases, over all runs within the budget, exactly then |
| RetainedMemoryBounds.ControlServedExactly | src/retained_memory.hpp:191-194 | with nothing restored live, control inside its reserve passes at once, over all runs within the budget, exactly then |
| RetainedMemoryBounds.WakeupsExactly | src/retained_memory.hpp:246-314 | an admissible sleeper is held by a live later grant of a class that gates it, over all runs within the budget, exactly then |
| RetainedMemoryBudgets.BudgetsExactly | src/retained_memory.hpp:222-229 | the durable budgets of the lower classes hold over all runs within the budget exactly then |
| RetainedMemoryBudgets.ViewerServedExactly | src/retained_memory.hpp:195-199 | with nothing restored live, a viewer inside its reserve passes at once, over all runs within the budget, exactly then |
| RetainedMemoryLaws.ControlAdmittedAtOnce | src/retained_memory.hpp:191-194 | with nothing restored live, control passes at once while it stays inside its reserve |
| RetainedMemoryLaws.ViewerAdmittedAtOnce | src/retained_memory.hpp:195-199 | law 2: a viewer passes at once while it, control, viewer and the lower classes' reclaimable and RPC-frame bytes fit the viewer reserve |
| RetainedMemoryLaws.LowerBudgets | src/retained_memory.hpp:222-229 | granted durable lower-class bytes, and the speculative part, stay within their budgets over all runs |
| RetainedMemoryLaws.WaitersExact | src/retained_memory.hpp:261-298 | each waiter count is the number of threads waiting, through cancel, deadline, stop and grant |
| RetainedMemoryLaws.PriorityGate | src/retained_memory.hpp:200-213 | no lower lease while control or viewer waits, no speculative one while a loader waits, an RPC frame inside the reassembly reserve apart |
| RetainedMemoryLaws.ReassemblyAdmitted | src/retained_memory.hpp:202-221 | inside the reassembly reserve an RPC frame passes whatever loaders wait and whatever durable work holds |
| RetainedMemoryLaws.CountersExact | src/retained_memory.hpp:297-377 | every byte counter is the sum over live leases it stands for, so no release underflows |
| RetainedMemoryAdmission.AdmissionExact | src/retained_memory.hpp:189-230 | after every run every request passes exactly when it fits in the sums over live leases, no thread that gates it waits, and durable lower work fits its budgets, the reassembly reserve apart |
| RetainedMemoryAdmission.EnterExact | src/retained_memory.hpp:251-260 | a caller comes to its first pass exactly when its class could ever be given as many bytes, at least one |
| RetainedMemoryAdmission.GrantExact | src/retained_memory.hpp:246-358 | a step other than a restore enters a lease exactly for a request it decides on that is admissible while the ledger is not stopping, and it is the lease asked for |
| RetainedMemoryLaws.ShedOncePerAllocation | src/retained_memory.hpp:232-244 | each lease is asked back at most once, only for a class that outranks its own in the order control, viewer, loader, speculative, and the count of requests is exact |
| RetainedMemoryAdmission.RefusedPassAsksAll | src/retained_memory.hpp:232-298 | after every refused pass exactly the reclaimable leases of outranked classes have been asked back in addition, and the caller sleeps exactly when all had been before |
| RetainedMemoryAdmission.NoSleeperHeldUnasked | src/retained_memory.hpp:246-314 | after every run every lease older than a caller's sleep that it may ask back has been asked back |
| RetainedMemoryStatistics.StatisticsExact | src/retained_memory.hpp:261-332 | after every run the statistics are its grants and first refusals by class, its departures, the most bytes ever in use and the bytes restored |
| JsonParser.Parser.Skip | src/json.cpp:29-31 | moves to the first byte that is not white space |
| JsonParser.Parser.Take | src/json.cpp:38-41 | moves over the byte exactly when it is next |
| JsonParser.Parser.ExpectWord | src/json.cpp:43-46 | succeeds exactly when the word is there |
| JsonParser.Parser.ReadHex4 | src/json.cpp:61-73 | four hex digits of either case and their value, or failure |
| JsonParser.Parser.ReadUnicode | src/json.cpp:116-130 | one escape or a surrogate pair, lone surrogates refused |
| JsonParser.Parser.ReadString | src/json.cpp:95-138 | the loop computes the string the parsing function gives, or fails with it |
| JsonParser.Parser.SkipFractionAndExponent | src/json.cpp:185-201 | ends where the fraction and exponent do, or fails where digits are missing |
| JsonParser.Parser.ReadNumber | src/json.cpp:174-223 | integers in range stay integers, negative ones signed; anything else is a finite double or an error |
| JsonParser.Parser.ReadValue | src/json.cpp:48-59 | the value the first byte announces, as the parsing function gives it |
| JsonParser.Parser.ReadArray | src/json.cpp:140-152 | the loop computes what the parsing function gives, and terminates |
| JsonParser.Parser.ReadMember | src/json.cpp:160-164 | a key, a colon and a value |
| JsonParser.Parser.ReadObject | src/json.cpp:154-172 | the same for objects, with duplicate keys refused and members kept in key order |
| JsonParser.Parser.ReadText | src/json.cpp:17-23 | succeeds exactly on the texts of legal documents, and with the meaning of every document that has that text |
| JsonSoundness.ParseSound | src/json.cpp:17-223 | whatever is accepted has a derivation in the grammar whose text is exactly what was consumed |
| JsonSoundness.ParseComplete | src/json.cpp:17-223 | every legal document is accepted, to the end, with its meaning |
| JsonSoundness.AcceptsExactlyLegal | src/json.cpp:17-223 | a text is parsed to a value exactly when some legal document has that text and means that value |
| JsonUnicode.Utf8Exact | src/json.cpp:75-93 | the bytes written for a code point are the one sequence that denotes it in the table of RFC 3629 |
| JsonUnicode.PairsOneToOne | src/json.cpp:118-127 | surrogate pairs and 0x10000 to 0x10FFFF correspond one to one, by section 2.1 of RFC 2781 |
| JsonUnicode.EscapeDecodes | src/json.cpp:116-133 | what an accepted escape adds decodes to the code point it names and no other |
| JsonPrinting.Printer.AppendByte | src/json.cpp:230-245 | one byte as its short escape, its \u00hh escape or itself |
| JsonTables.EscapeRead | src/json.cpp:104-115 | a string of one escape is read as a byte exactly when letter and byte are one of the eight pairs of section 7 of RFC 8259 |
| JsonTables.EscapeWritten | src/json.cpp:227-247 | a byte is written as itself, as backslash and letter, or as four hex digits, each exactly where it is to be, the solidus unescaped |
| JsonTables.HexRead | src/json.cpp:61-73 | a hex digit is one of sixteen of either case, with the value of its place among them |
| JsonTables.Hex4Read | src/json.cpp:61-73 | four of them are read in base sixteen |
| JsonTables.DigitRead | src/json.cpp:203-214 | the digits of a number are exactly the ten of the format |
| JsonTables.DigitsRead | src/json.cpp:203-214 | decimal digits are read with their places |
| JsonTables.IntegerRanges | src/json.cpp:203-214 | the bounds of the integers are 2^63 and 2^64 |
| JsonTables.WordsExact | src/json.cpp:43-59 | null, true and false, read and written |
| JsonTables.MarksExact | src/json.cpp:48-59 | the structural characters and marks |
| JsonTables.SpaceExact | src/json.cpp:29-31 | the four bytes of white space, and the marks of an exponent |
| JsonTables.KeyOrderExact | src/json.cpp:154-172 | keys are in lexicographic order of their bytes |
| JsonPrinting.Printer.AppendEscaped | src/json.cpp:227-248 | the buffer grows by the quoted, escaped string |
| JsonPrinting.Printer.DumpValue | src/json.cpp:250-291 | the buffer grows by the canonical text of the value |
| JsonPrinting.Printer.DumpItems | src/json.cpp:270-280 | the loop appends the items between brackets, comma before all but the first |
| JsonPrinting.Printer.DumpMembers | src/json.cpp:281-290 | the same for members in key order |
| JsonRoundTrip.DecimalDigits | src/json.cpp:253-259 | the digits printed for a number are its value, without leading zeros |
| JsonRoundTrip.RoundTrip | src/json.cpp:48-291 | parsing a printed value gives it back, only a non-negative Int64 becoming a UInt64, and uses the whole text |
| JsonRoundTrip.PrintInjective | src/json.cpp:227-291 | two values print alike exactly when they differ at most in that |
| JsonValues.InsertAscending | src/json.cpp:164-166 | a new key keeps an object's members strictly in key order |
| JsonValues.ParsedWellFormed | src/json.cpp:154-223 | parsed integers are in range and parsed keys distinct and in order, at every depth |
| JsonValues.CanonicalForm | src/json.cpp:17-291 | printing what was parsed gives a text of the same value that printing again leaves unchanged |
| ObservationBuckets.BucketExact | src/observation.cpp:36-57 | a value lies between a bucket's bounds exactly when it is that value's bucket |
| ObservationBuckets.BucketsContiguous | src/observation.hpp:33-38 | each bucket starts where the one before ends, from 0 to 2^64 - 1 |
| ObservationBuckets.BoundsFit | src/observation.cpp:44-57 | no bound overflows |
| ObservationBuckets.BucketWidth | src/observation.hpp:28-31 | a bucket is at most an eighth of its lower bound wide |
| ObservationHistogram.LatencyHistogram.Record | src/observation.cpp:89-95 | one bucket, the sum modulo 2^64 and the maximum change as recorded |
| ObservationHistogram.LatencyHistogram.TakeSnapshot | src/observation.cpp:97-106 | the counts, their total, the sum and the maximum |
| ObservationHistogram.RecordedHolds | src/observation.cpp:89-95 | recording a value turns a histogram of some values into one of those and it |
| ObservationHistogram.SnapshotCounts | src/observation.cpp:97-106 | a snapshot's count is the number of values, with no running total wrapping |
| ObservationHistogram.FindQuantile | src/observation.cpp:59-72 | the scan gives the capped upper bound of the first bucket whose running total reaches the rank |
| ObservationHistogram.QuantileExists | src/observation.cpp:59-72 | for every q some value is at the quantile: at least that share of the values at or below it and fewer strictly below, the least value for q up to 0 and that of 1 beyond 1 |
| ObservationHistogram.QuantileUnique | src/observation.cpp:59-72 | and only one |
| ObservationHistogram.QuantileBounds | src/observation.cpp:59-72 | with x the value at the quantile, the answer is the upper bound of its bucket or the maximum: at most x + x/8, and at least x exactly when the maximum is |
| ObservationHistogram.QuantileAccuracy | src/observation.cpp:59-72 | with a maximum that bounds the values it is at least x and at most x + x/8 |
| ObservationHistogram.QuantileOfOneExact | src/observation.cpp:59-72 | of any tally, quantile(1.0) is the maximum exactly when that is no higher than the bucket of the largest value |
| ObservationHistogram.QuantileOfOne | src/observation.hpp:53-56 | quantile(1.0) is the maximum, of a histogram and of every window of it |
| ObservationHistogram.Difference | src/observation.cpp:74-87 | the loop computes the difference of two snapshots |
| ObservationHistogram.WindowExact | src/observation.cpp:74-87 | it counts exactly the values in between, its max bounds theirs to an eighth, and its sum is theirs exactly when the stored sum did not wrap |
| ObservationAtomics.AfterFollows | src/observation.cpp:89-95 | under any interleaving of the three steps of any records each cell follows the steps made to it |
| ObservationAtomics.DoneIsRecorded | src/observation.hpp:66-69 | once every record begun is done the histogram is that of its values recorded one by one |
| ObservationAtomics.WindowBuckets | src/observation.cpp:97-106 | each bucket of a window counts exactly what landed between its two reads, wherever the reads of a snapshot fall |
| ObservationAtomics.CountedOnce | src/observation.hpp:66-69 | the windows between any number of such snapshots count each value once |
| ObservationAtomics.WindowTallies | src/observation.hpp:66-69 | a window's count is the number of values its buckets count, so count and quantiles agree |
| ObservationAtomics.WindowQuantile | src/observation.cpp:59-87 | with x the value at the quantile among those such a window counts, the answer is at most x + x/8, and at least x exactly when the maximum read is |
| ObservationAtomics.MaxMayBeLate | src/observation.cpp:89-106 | for every first value a window that counts it with every quantile zero, read between its landing and its maximum |
| ObservationAtomics.WindowSummed | src/observation.cpp:83 | a window's sum is that of the records summed between its two reads exactly when the stored sum did not wrap |
| ObservationAtomics.LateInWindow | src/observation.hpp:66-69 | what is summed or raised in a window is what landed in it and what was under way at its start, less what is under way at its end |
| ObservationRegistry.Observations.Record | src/observation.cpp:127-137 | a value goes to its series, to a new one while there is room, or to overflow, which is counted |
| ObservationRegistry.Observations.Add | src/observation.cpp:139-149 | the same for counters |
| ObservationRegistry.Observations.Event | src/observation.cpp:151-158 | the queue drops its oldest event, and counts it, only when full |
| ObservationRegistry.Observations.DrainEvents | src/observation.cpp:175-178 | returns the queue in order and empties it |
| ObservationRegistry.Observations.TakeMoment | src/observation.cpp:160-173 | a snapshot of every series, the registry's own names only where no series has them |
| ObservationRegistry.OwnNames | src/observation.hpp:109-110 | the names under which the registry reports its own counts, unless a series has one of them |
| ObservationRegistry.HistogramDifferences | src/observation.cpp:108-115 | a series the earlier moment lacks counts from zero |
| ObservationRegistry.CounterDifferences | src/observation.cpp:116-121 | the same for counters |
| ObservationRegistry.ObservationRecorder.Tick | src/observation.cpp:335-352 | logs the drained events in order and then one window, from the last tick to this one |
| ObservationWindows.RegistryTimings | src/observation.cpp:127-137 | after any run the series are the first maxSeries names and each histogram holds the values that landed in it |
| ObservationWindows.RegistryCounts | src/observation.cpp:139-149 | the same for counters, modulo 2^64 |
| ObservationLaws.RunLog | src/observation.cpp:335-352 | the windows of any run tile it: each starts where the one before ended and is the difference over its steps |
| ObservationLaws.TrackedGrows | src/observation.hpp:98-106 | series are never removed, and none is added once the bound is reached |
| ObservationLaws.SeriesWindowExact | src/observation.cpp:108-122 | every window of every run is right about every series: counts exact, max to an eighth, sum exactly when it does not wrap |
| ObservationLaws.EachValueOnce | src/observation.cpp:335-352 | across all windows of a run each value a series has to report is counted exactly once: what landed in it, or for the overflow series, until a series takes its name, what was without room |
| ObservationLaws.AllCountedExactly | src/observation.cpp:160-168 | every recorded value, landed or without room, is counted exactly once exactly when no series has the overflow series' name or nothing was without room |
| ObservationLaws.OverflowWindowExact | src/observation.cpp:160-168 | unless a series has its name, the overflow series is right about the values without room |
| ObservationTotals.CounterWindowExact | src/observation.cpp:116-120 | a window's counter is the sum added in it exactly when the stored one does not wrap |
| ObservationTotals.OverflowCounterWindow | src/observation.cpp:165-171 | while no counter takes its name, a window's overflow counter is the number of probes in it without room |
| ObservationTotals.DroppedCounterWindow | src/observation.cpp:165-171 | while no counter takes its name, a window's dropped counter is the number of events that went missing in it |
| ObservationTotals.ReservedCounter | src/observation.cpp:165-171 | a counter that takes one of the registry's own names in a window is right exactly when the registry's count was zero or nothing was added |
| ObservationTotals.OverflowedCounts | src/observation.cpp:131-146 | the overflow counter is the number of probes without room |
| ObservationTotals.EventsExact | src/observation.cpp:151-178 | what waits is the latest of what was emitted since the last drain; what is written and then waiting is, in order, a subsequence of what was emitted, and the dropped counter is the number missing |
| ObservationTotals.OverflowHidden | src/observation.cpp:163-167 | a run in which a value without room is in no window |
| IngestJobs.KeepFileControls | src/acquisition/ingest.cpp:213-216 | the loop puts the stored controls on the worker's files when there are as many, and otherwise changes nothing |
| IngestJobs.IngestManager.PauseJob | src/acquisition/ingest.cpp:901-924 | accepted exactly in the states that can pause |
| IngestJobs.IngestManager.ResumeJob | src/acquisition/ingest.cpp:941-964 | accepted exactly when paused, blocked or failed; held files become active, others keep their control |
| IngestJobs.IngestManager.CancelJob | src/acquisition/ingest.cpp:1034-1056 | accepted exactly when neither completed nor cancelled |
| IngestJobs.IngestManager.ActOn | src/acquisition/ingest.cpp:1119-1176 | one file's control changes as the action says, where it may, and a job held only by its files is queued again |
| IngestRequests.FileRequestExact | src/acquisition/ingest.cpp:1118-1171 | a file action is accepted exactly where job state, file and control allow it, and then changes that file's control and perhaps sets a waiting job going, and nothing else |
| IngestRequests.FileAlwaysAnswers | src/acquisition/ingest.cpp:1118-1171 | a file neither done nor failed in a job that may still run can always be held, let go and left out |
| IngestRequests.JobRequestsExact | src/acquisition/ingest.cpp:901-1081 | a pause, resume, cancel or clear is accepted in exactly these states, with the job that is then stored |
| IngestRequests.ClaimExact | src/acquisition/ingest.cpp:1279-1334 | a worker is given a job exactly when it is idle and the job is queued, or blocked long enough, and unclaimed |
| IngestRequests.TakeExact | src/acquisition/ingest.cpp:1396-1405 | and keeps it exactly unless it is gone, paused, cancelled or being catalogued |
| IngestRequests.StoresExact | src/acquisition/ingest.cpp:2285-2305 | for each way of storing a copy, what the stored job then is: the copy's files under the stored controls, and which of the two states |
| IngestRequests.StoreGoesOn | src/acquisition/ingest.cpp:2285-2305 | and whether the worker goes on with it |
| IngestRequests.LookExact | src/acquisition/ingest.cpp:2203-2221 | between files a worker not told to stop sees the stored controls, and nothing is stored |
| IngestRequests.CataloguedExact | src/acquisition/ingest.cpp:1234-1252 | a job being catalogued, and no other, is completed by it |
| IngestRequests.DropCopiedExact | src/acquisition/ingest.cpp:1177-1187 | a file whose partial is dropped has nothing copied, and nothing else changes |
| IngestRequests.SubmitExact | src/acquisition/ingest.cpp:850-862 | a job is new exactly when its id never was one |
| IngestJobs.IngestManager.Erase | src/acquisition/ingest.cpp:1097-1102 | the job goes exactly when it is still in the state seen |
| IngestJobs.IngestManager.SelectJob | src/acquisition/ingest.cpp:1279-1290 | the unclaimed ready job with the least id, and none only when there is none |
| IngestJobs.IngestManager.Claim | src/acquisition/ingest.cpp:1295-1327 | the selected job joins the active ones under the same lock |
| IngestJobs.IngestManager.Release | src/acquisition/ingest.cpp:1333-1334 | the claim goes and nothing else changes |
| IngestJobs.IngestManager.RecordProgress | src/acquisition/ingest.cpp:2285-2306 | a pause or cancel stands over the copy, controls are kept, a missing job is not put back |
| IngestJobs.IngestManager.WriteBack | src/acquisition/ingest.cpp:2053-2058 | the copy replaces a job that is still there, controls apart |
| IngestJobs.IngestManager.StoreUnlessStopped | src/acquisition/ingest.cpp:2190-2199 | gives way to a pause, cancel or clear |
| IngestRuns.RunKeeps | src/acquisition/ingest.cpp:1279-1342 | over every interleaving claims are exclusive, ids are known, and a worker's copy has the stored job's files one for one unless it is still planning them |
| IngestLaws.OneHolder | src/acquisition/ingest.cpp:1295-1334 | no job is held by two workers, and none held can be claimed |
| IngestLaws.NeverResurrected | src/acquisition/ingest.cpp:2285-2303 | a job that is gone stays gone, whatever copies workers still hold |
| IngestLaws.ControlStep | src/acquisition/ingest.cpp:941-964 | a step changes a file's control only at a resume of a held one or a file action for it, from what and to what that says, and never once it is left out |
| IngestLaws.RequestStands | src/acquisition/ingest.cpp:213-216 | over every interleaving a file keeps its control until such a request |
| IngestLaws.LeftOutForGood | src/acquisition/ingest.cpp:1149-1152 | from every reachable state and over every interleaving a file once left out stays left out |
| IngestStops.WorkerLeavesStop | src/acquisition/ingest.cpp:2005-2010 | a worker's step leaves a pause or cancel standing exactly when it is not an unchecked store of another state |
| IngestStops.StopStands | src/acquisition/ingest.cpp:2005-2058 | from every reachable state and over every interleaving without a user action on the job, a pause or cancel stands exactly until such a store |
| IngestStops.StopStandsForGood | src/acquisition/ingest.cpp:1973-2058 | it stands in all such interleavings exactly when no worker is at work on the job |
| IngestStops.PauseLost | src/acquisition/ingest.cpp:2053-2058 | for every pool and every plan a run from the start in which a pause is accepted and then lost |
| IngestResumes.ResumeStands | src/acquisition/ingest.cpp:1995-2058 | from every reachable state and over every interleaving without a user action on the job, a job that is neither paused nor cancelled becomes so exactly by a worker's store of a stopped copy |
| IngestResumes.ResumeStandsForGood | src/acquisition/ingest.cpp:941-964 | a resumed job stays queued until it is taken, in all such interleavings, exactly when no worker is at work on it |
| IngestResumes.ResumeLost | src/acquisition/ingest.cpp:2005-2010 | for every pool and every plan a run from the start in which a pause and then a resume are accepted and the pause is left |
| IngestCopier.FileCopier.LookForPartial | src/acquisition/ingest.cpp:1857-1886 | resumes a partial, completes from a destination of the right size, or starts a partial |
| IngestCopier.FileCopier.OpenPartial | src/acquisition/ingest.cpp:1927-1933 | the handle starts clean, from the entry as it is now |
| IngestCopier.FileCopier.CopyChunk | src/acquisition/ingest.cpp:2014-2025 | one chunk is read at the input's place and written at the copied length, leaving the handle dirty; a short read commits and leaves |
| IngestCopier.FileCopier.Commit | src/acquisition/ingest.cpp:1941-1961 | a clean handle looks at nothing; a dirty one commits on an unchanged entry and otherwise re-bases, at most three times in a row |
| IngestCopier.FileCopier.Leave | src/acquisition/ingest.cpp:1986-2012 | what is written is committed and the handle goes |
| IngestCopier.FileCopier.FinishAndRename | src/acquisition/ingest.cpp:2062-2071 | the last commit, of a clean handle, the size check and the rename of the entry as it is |
| IngestCopier.FileCopier.CopyFile | src/acquisition/ingest.cpp:1973-2071 | with any list of merges falling before its steps it ends, and what it did is a run; left alone it ends with the destination holding the source |
| IngestCopyLaws.CrashSafe | src/acquisition/ingest.cpp:1933-2071 | over every run of writes, commits, crashes, pauses and rollbacks undisturbed at three steps, the partial is a prefix of the source and a completed file is it |
| IngestCopyLaws.StepExact | src/acquisition/ingest.cpp:1857-2071 | a step keeps everything right exactly when it is undisturbed |
| IngestCopyLaws.CalmRunsAreSafe | src/acquisition/ingest.cpp:1934-1961 | rollbacks that only shorten the partial, none between look and open and none once the copy is whole and committed, do no harm |
| IngestCopyLaws.SafeExactly | src/acquisition/ingest.cpp:1857-2071 | every run of every source is safe exactly when merges keep to all three restrictions |
| IngestCopyLaws.OpenExact | src/acquisition/ingest.cpp:1857-1933 | an open goes on from the right place exactly when the entry still has what was looked at, or nothing was left to write |
| IngestCopyLaws.CommitExact | src/acquisition/ingest.cpp:1943-1945 | a dirty commit leaves the input where the copy is exactly when the handle is no longer than the copy, or is the whole source |
| IngestCopyLaws.RebaseExact | src/acquisition/ingest.cpp:1946-1956 | a stale commit re-bases up to three times in a row and then gives up; re-basing puts everything in step exactly when the entry is no longer than the copy |
| IngestCopyLaws.DropStartsOver | src/acquisition/ingest.cpp:2273-2284 | a dropped partial takes what was copied along and no destination, and the next look starts from nothing |
| IngestCopyLaws.RenameExact | src/acquisition/ingest.cpp:2062-2071 | a rename completes the file with the source exactly when the entry is still whole |
| IngestCopyLaws.ShortOpenCorrupts | src/acquisition/ingest.cpp:1858-1933 | after an open that finds less than was looked at, the next commit leaves a prefix exactly when the skipped source bytes are zeros |
| IngestCopyLaws.EarlyRollbackZeroes | src/acquisition/ingest.cpp:1858-1933 | for every source and every proper part of its beginning a run with a rollback between look and open that completes the file with zeros in that part's place |
| IngestCopyLaws.CommitAheadCorrupts | src/acquisition/ingest.cpp:1943-1944 | after a commit through a handle longer than the copy the next write leaves a prefix exactly when two stretches of the source coincide |
| IngestCopyLaws.LongerRollbackCorrupts | src/acquisition/ingest.cpp:1946-1956 | for every source of five bytes a run with a rollback to a longer state that completes the file with its fourth byte in place of its fifth |
| IngestCopyLaws.LateRollbackTruncates | src/acquisition/ingest.cpp:2062-2071 | for every source and every proper prefix of it a run with a rollback after the loop's last commit that completes the file with that prefix |
| IngestPaths.NormalizeName | src/metadata/metadata.cpp:4217-4244 | a plain name at the end of a path is the last component of its normal form |
| IngestPaths.SuffixesDistinct | src/acquisition/ingest.cpp:134-140 | different collision suffixes give different paths, through normalisation |
| IngestPaths.SuffixPlaced | src/acquisition/ingest.cpp:134-140 | the suffix goes between stem and extension of the last component, in the same directory |
| IngestPaths.NormalForms | src/metadata/metadata.cpp:4217-4244 | a path of plain components is its own normal form, a dot goes, and two dots take the component before them along |
| IngestPaths.RootIsTop | src/metadata/metadata.cpp:4217-4244 | there is nothing above the root |
| IngestDestinations.SearchBounded | src/acquisition/ingest.cpp:2166-2175 | no more suffixes are passed over than there are names taken |
| IngestDestinations.FreeName | src/acquisition/ingest.cpp:2165-2175 | the search ends with the first suffixed name neither used nor present, or where getattr fails |
| IngestDestinations.TemporaryExact | src/acquisition/ingest.cpp:1647 | the partial is beside the destination, marked with the first twelve characters of the job's id |
| IngestDestinations.CollectCompleted | src/acquisition/ingest.cpp:2155-2157 | the names used at first are those of the completed files |
| IngestDestinations.ResolveDuplicateDestinations | src/acquisition/ingest.cpp:2150-2183 | every file to import ends with a destination no other such file and no completed file has; others are untouched, and a name changes only where it was taken |
| Paging.EncodeCursor | src/api/paging.cpp:28-37 | the loop writes the cursor of the key |
| Paging.DecodeCursor | src/api/paging.cpp:39-57 | the loop gives the key a cursor names, or none |
| Paging.CursorRoundTrip | src/api/paging.cpp:28-57 | a cursor is accepted as a key exactly when it is the one issued for it |
| Paging.CursorRefused | src/api/paging.cpp:19-24 | a cursor is refused exactly when it is issued for no key |
| Paging.LimitExact | src/api/paging.cpp:8-18 | a limit is read exactly when it is digits for a number from 1 to 1000; an absent or empty one asks for all |
| Paging.UpperBoundExact | src/api/paging.hpp:47-53 | on a sorted list the bound splits exactly the keys after the given one from the rest |
| PagingTraversal.QueryRoundTrip | src/api/paging.cpp:8-26 | a limit and an issued cursor are read back as themselves, the empty cursor as none |
| PagingTraversal.PageExact | src/api/paging.hpp:43-59 | a page is the keys after the cursor up to its last, and a cursor names that last key exactly when more follow |
| PagingTraversal.TraversalExact | src/api/paging.hpp:43-59 | with any sorted list at each call, unless the first cursor issued is empty, the keys read ascend strictly and, at the end, include every key that was in all of them |
| PagingTraversal.TraversalExactly | src/api/paging.cpp:19-24 | so it is exactly unless there is one entry to a page and the first two lists, the first with more to come, both start with the empty key |
| PagingTraversal.SteadyTraversal | src/api/paging.hpp:43-59 | an unchanging list is read whole |
| PagingTraversal.PagesForIsCeiling | src/api/paging.hpp:54-57 | in the least number of pages that hold it |
| PagingTraversal.EmptyKeyRepeats | src/api/paging.cpp:19-20 | with the empty key first and one entry to a page no call is the last |
| PagingTraversal.SteadyExactly | src/api/paging.cpp:19-24 | an unchanging list is read to its end exactly when that is not so |
| AvailabilityLaws.FileCode | src/api/item_availability.cpp:82-91 | each code of a file in terms of its extent counts, all four ways |
| AvailabilityLaws.BestIsBest | src/api/item_availability.cpp:102-108 | an item has the code of one of its files, and no file has a better one in the order complete, partial, unknown, unavailable |
| AvailabilityLaws.SetCode | src/api/item_availability.cpp:54-64 | each code of a set in terms of its members' codes, all four ways |
| AvailabilityLaws.CodesAddUp | src/api/item_availability.cpp:36-52 | the four counts sum to the members in any catalogue, cyclic ones included |
| AvailabilityLaws.TableAddsUp | src/api/item_availability.cpp:93-135 | so they do in every entry of the table, whose code is the set's or the item's own |
| AvailabilityLaws.ChainNeverCut | src/api/item_availability.cpp:114-123 | without cycles the depth bound never cuts a parent chain |
| AvailabilityLaws.AcyclicEnds | src/api/item_availability.cpp:114-123 | so without cycles every chain ends within the depth bound |
| AvailabilityLaws.ChainIsAncestors | src/api/item_availability.cpp:114-123 | in any catalogue, cyclic ones included, the chain meets every ancestor and nothing else |
| AvailabilityLaws.AncestorsOnce | src/api/item_availability.cpp:114-123 | an item whose own chain ends, or goes once round the whole catalogue, counts once in each ancestor and in nothing else along its chain |
| AvailabilityLaws.AncestorsOnceExactly | src/api/item_availability.cpp:114-123 | an item counts so exactly then |
| AvailabilityLaws.OwnParentTwice | src/api/item_availability.cpp:114-123 | a catalogue in which an item counts in itself twice |
| AvailabilityLaws.MembersExact | src/api/item_availability.cpp:114-130 | a set never has fewer members than descendants with files and mentions by one, and just as many when every item with files counts once |
| AvailabilityLaws.MembersExactly | src/api/item_availability.cpp:114-130 | all sets have just as many exactly when every item with files counts once |
| AvailabilityLaws.TallyExact | src/api/item_availability.cpp:36-52 | each code of a set then counts just the descendants and mentions that have it |
| AvailabilityTable.BestOf | src/api/item_availability.cpp:102-107 | the loop finds the best code of the files |
| AvailabilityTable.OwnCodes | src/api/item_availability.cpp:96-110 | every item starts with its own code and no members |
| AvailabilityTable.CountChain | src/api/item_availability.cpp:116-123 | the walk counts the item in its chain, each step once |
| AvailabilityTable.CountKnown | src/api/item_availability.cpp:124-129 | and in the authors or series the catalogue has |
| AvailabilityTable.CountItem | src/api/item_availability.cpp:114-130 | an item is counted with its own code in exactly its sets, as often as it is in each |
| AvailabilityTable.JudgeSets | src/api/item_availability.cpp:131-133 | every entry with members, and no other, takes the code of a set |
| AvailabilityTable.ItemAvailability | src/api/item_availability.cpp:93-135 | the loops build the table of exact counts and codes |
| AvailabilityTable.ItemAvailabilityCache.Table | src/api/item_availability.cpp:137-148 | the cache returns the table of exactly the two snapshots given, rebuilding only when either differs |
| Retry.RetryState.Failed | src/retry_policy.hpp:33-57 | the delay, or none when the budget is exhausted, and the state after |
| Retry.RetryState.Succeeded | src/retry_policy.hpp:61-66 | the window survives a success, everything about the current failing does not |
| Retry.RetryState.Reset | src/retry_policy.hpp:69-71 | everything is forgotten |
| Retry.WindowExact | src/retry_policy.hpp:42-44 | for non-decreasing times the window is the whole failure history filtered to it, across successes |
| Retry.CountsExact | src/retry_policy.hpp:35-41 | total, consecutive, last failure and the start of the current failing are those of the history |
| Retry.ParksExactly | src/retry_policy.hpp:42-50 | a failure is the last exactly when more than max_failures, itself included, are within the window, or the current streak has gone on longer than max_failing_duration |
| Retry.BackoffExact | src/retry_policy.hpp:51-56 | the delay after the k-th unparked failure in a row is the initial one doubled k - 1 times up to the ceiling; with a zero ceiling the initial one and none alternate |
| Retry.DelayClosedForm | src/retry_policy.hpp:51-56 | min(max, initial * 2^(k-1)) from the first on, when 0 < initial <= max |
| Retry.DueExactly | src/retry_policy.hpp:51-66 | after a failure that does not park it an item is due from its delay on, and after a success at once |
| Retry.ParkedWithin | src/retry_policy.hpp:45-50 | an item retried when due and failing every time is parked within max_failing_duration / initial + 2 failures |
| Retry.SupervisedRestartDelay | src/supervised.cpp:122-126 | min(60 s, 1 s * 2^(n-1)) after n failures in a row |
| MemoryConfig.Config.Shrink | src/config_base.cpp:26-57 | every size is the scaled one or the floor, exactly when the wrapped total is over the limit |
| MemoryConfig.ShareExact | src/config_base.cpp:35-39 | a part that shrinks becomes its share of the limit rounded down, and never less than 2^20 |
| MemoryConfig.Config.CheckReserves | src/config_base.cpp:58-73 | accepts exactly when nothing is zero and the reserves together fit the capacity, with no subtraction wrapping |
| MemoryConfig.Config.Validate | src/config_base.cpp:26-73 | what it accepts, the ledger's constructor accepts |
| MemoryConfig.ShrunkWithinLimit | src/config_base.cpp:27-46 | the shrunk parts total at most the limit, but for at most 1 MiB for each one at the floor |
| MemoryConfig.ReservesStillFit | src/config_base.cpp:47-51 | reserves that fitted still fit when none stops at the floor |
| MemoryConfig.ReservesFitExactly | src/config_base.cpp:47-51 | reserves that fitted still fit exactly when what the floor adds to them is at most the room the shares leave |
| MemoryConfig.FlooredReservesRefused | src/config_base.cpp:36-38 | a configuration whose floored reserves no longer fit |
| MemoryConfig.WrappedTotalUnshrunk | src/config_base.cpp:30-32 | parts over the limit are left as they are exactly when their total wraps to within it |
| MemoryConfig.WrappedTotalExceeds | src/config_base.cpp:27-46 | parts whose total wraps are never brought within the limit |
| MemoryConfig.LimitKeptExactly | src/config_base.cpp:27-46 | validation brings the parts within the limit exactly when they were, or their total does not wrap and what the floor adds fits the room the shares leave |
| MemoryConfig.LimitKeptUnlessWrapped | src/config_base.cpp:27-46 | with no part at the floor, exactly when their total does not wrap |
| MemoryConfig.WrappedTotals | src/config_base.cpp:30-32 | a wrapped total that is shrunk and still over the limit, and one beyond 2 * 2^64 that is left as it is |
| Codec.BytesExact | src/codec.cpp:14-73 | an integer and its big-endian bytes determine each other |
| Codec.BigEndianAt | src/codec.cpp:9-27 | each byte of an integer is its digit in base 256, the most significant first |
| Codec.NodeLayout | src/codec.cpp:114-125 | the place and width of every field in the encoding of a node |
| Codec.NodeExact | src/codec.cpp:114-140 | a node record is read exactly when it is representable with short strings and its encoding is there, and that is what is consumed |
| Codec.EncodeThenDecode | src/codec.cpp:114-140 | decoding an encoding followed by anything gives the node and leaves exactly what follows |
| Codec.DecodeThenEncode | src/codec.cpp:114-140 | encoding a decoded node gives back exactly the bytes consumed |
| CodecStreams.Writer.Integer | src/codec.cpp:5-24 | the loop appends the bytes of the integer, most significant first |
| CodecStreams.Writer.Bytes | src/codec.cpp:30-35 | a length-prefixed blob, refused when the length does not fit |
| CodecStreams.Writer.Row | src/codec.cpp:118-124 | integers in a row, each in its width |
| CodecStreams.Writer.EncodeNodeInfo | src/codec.cpp:114-125 | appends the encoding of the node |
| CodecStreams.Reader.Integer | src/codec.cpp:46-73 | the loop reads the value of the next bytes, or fails when there are too few |
| CodecStreams.Reader.Raw | src/codec.cpp:75-80 | the next bytes, or failure when there are too few |
| CodecStreams.Reader.Integers | src/codec.cpp:132-138 | integers in a row, each read where the one before ended |
| CodecStreams.Reader.String | src/codec.cpp:96-107 | a length-prefixed string within its maximum |
| CodecStreams.Reader.DecodeNodeInfo | src/codec.cpp:127-140 | the reader decodes what the decoding function does |

## Left out

- RetainedMemoryLaws.NoLostWakeup: assumes capacity plus all bytes ever restored below 2^64, as do the other byte laws; `WakeupsExactly` and its companions show that this is what they need. Lease ids and the statistics counters are unbounded.
- RetainedMemoryLedgers.RetainedMemoryLedger.AcquirePass: the deadline and the cancel flag are one bit the caller gives; shed callbacks are handed out by id and not called; spurious wakeups are steps of the run.
- Leases: moving and resetting a lease object; a release is by id.
- JsonParser.Parser.ReadNumber: whether strtod finds a literal finite is a parameter, and a double is kept as its literal.
- JsonPrinting.Printer.DumpValue: doubles are not printed, nor refused when not finite.
- ObservationHistogram.LatencyHistogram.Record: one step here and in the runs of the registry; `ObservationAtomics` interleaves its three steps with those of other records and with the reads of snapshots, for one histogram. The laws need fewer than 2^64 records.
- ObservationHistogram.FindQuantile: q and q * count are exact reals, without the rounding of double.
- ObservationRegistry.ObservationRecorder.Tick: gauges, the JSON lines and the log file's rotation.
- ObservationRegistry.Observations.Event: needs max_events of at least 1 or an event waiting, as popping an empty deque is undefined.
- IngestRuns.RunKeeps: restarts from the saved state, and saves that fail, are not steps. Job ids are random and taken not to repeat. What a worker does to its copy is any change that keeps the number of files, or any change while it has none stored.
- IngestCopier.FileCopier.CopyFile: adopting published extents, creating parent directories, the checks that the source is unchanged, rates and hints. A merge is any rollback to an earlier committed state; other writers of the partial or the destination are excluded.
- IngestPaths.SuffixesDistinct: the suffix is unbounded where the source's is a 32-bit unsigned.
- Planning a job: probing media, naming destinations, case folding, sidecars.
- Paging.DecodeCursor: `page_json`, which sorts and slices a JSON array, is not modelled.
- AvailabilityTable.ItemAvailability: counts are unbounded where the source's are 32-bit.
- Retry.RetryState.Failed: times and durations are integers in one unit; a failure at the clock's epoch is the unset first failure, as in the source.
- MemoryConfig.Config.Validate: the rest of configuration validation and the warning it logs.
- CodecStreams.Reader.DecodeNodeInfo: signed integers, borrowed views, `finish` and the template for fixed arrays other than the 16-byte id.
- HTTP handlers, users and sessions, the filesystem, metadata and cluster layers, playback, torrents, crypto and durable files.
