# Models of the agent's embedded algorithms

This project models the stateful algorithms that the agent carries with it: histograms and their
recorder, the JSON reader, the shared statistics table, the once-only singleton, trees of values, the
log-level patterns, number conversions, the command line, and the row walk of the SNMP table. Each
model is a set of Dafny modules; `dafny verify dfyconfig.toml` checks all of them.

Code that changes state in place is modelled by classes and methods, and each method is tied to a
function of its inputs and of the state before. What the source promises is proved of these functions,
for all inputs and all runs. Concurrent code is modelled as a state machine: a step is one critical
section or one atomic operation, a run is any sequence of steps that can be taken, and the theorems
hold of every run of any number of threads.

| file | what it models |
|---|---|
| `Powers.dfy`, `BucketLayout.dfy` | the three bucket layouts, with exact arithmetic |
| `RangeChecksum.dfy` | the CRC over bucket ranges, on 32-bit words |
| `Histograms.dfy` | the histogram class: filling ranges, adding samples, finding corruption, printing |
| `StatisticsRecorder.dfy`, `FactoryProtocol.dfy` | registration and sharing of ranges; threads that race to create histograms |
| `StatsLayout.dfy`, `CStrings.dfy`, `StatsSlots.dfy`, `StatsRefusals.dfy`, `StatsReaders.dfy`, `StatsNames.dfy`, `StatsCounters.dfy` | the shared-memory table: layout, thread slots, refused slots, readers, counter names, counters |
| `Singleton.dfy` | compare-and-swap once-initialisation with spinning waiters |
| `ValueTree.dfy`, `ValuePaths.dfy`, `OwnedValues.dfy` | values as trees, dotted paths on them, and the objects that own each other |
| `JsonGrammar.dfy`, `JsonParser.dfy`, `JsonTheorems.dfy`, `JsonTexts.dfy`, `JsonErrors.dfy`, `JsonUnique.dfy`, `JsonStrict.dfy`, `JsonPrinter.dfy`, `JsonReader.dfy` | the language, the reader as functions, what ties them together, texts by their characters, errors, that texts have one derivation, RFC 4627 itself, a printer, and the reader's class |
| `NumberConversions.dfy` | integers and hexadecimal bytes to text and back |
| `Vlog.dfy` | pattern matching and level lookup |
| `CommandLine.dfy`, `SwitchNames.dfy` | switches, arguments, parsing again, and lookups that ignore case |
| `SnmpTable.dfy` | rows, walk contexts and their list |

## Where promises fail

Some properties that the design suggests do not hold of the code. The code is modelled as it is, and
the exact condition is proved.

- The range checksum does not cover the last range (`RangeChecksum.OneChangeIsDetected`).
- A sample total that is too low by more than 2^31 is flagged as too high, because the 64-bit difference
  is replaced by INT_MAX when it does not fit an int; a difference of exactly -2^31 is not flagged if
  negating it wraps (`Histograms.Histogram.FindCorruption`).
- A thread name that starts with a NUL character leaves its slot looking free, so threads share it and
  additions are lost (`StatsSlots.SafeIffVisible`). The header says that names need not be unique and
  asks nothing else of them.
- The header says that longer counter names are truncated. They are, but a truncated name is never
  found again: each process gets a row of its own. The empty name is stored as `<unknown>` and not
  found again either. A name that starts with a NUL character leaves its row looking empty, so that
  another name is given the same row (`StatsNames.SafeIffGood`).
- A counter object is documented to be safe for use by many threads, but it registers the calling thread
  only when it looks its name up for the first time. A later thread without a slot is given slot 0,
  whose place belongs to another row or to a counter name, and its addition lands there
  (`StatsRefusals.LateThreadMisplaces`, `StatsCounters.OwnLocationIff`). The header of the table does
  ask threads to register first.
- Even a thread that has a slot can lose an addition: the cached row is read twice, and a thread that is
  refused a slot may set it to zero in between (`StatsRefusals.RefusalMisplaces`). The exact conditions
  are `StatsRefusals.SafeIffUndisturbed` and `StatsRefusals.SafeStartIff`; if all threads register before
  they count, nothing is lost (`StatsRefusals.SlotHoldersAreSafe`).
- A comment says that a thread without room cannot use counters. The cached row of the object is set to
  zero, so no thread can use that counter any more (`StatsSlots.RefusalIsForAll`).
- A singleton whose New returns null can be created twice, and one whose New returns 1 leaves callers
  spinning for ever (`Singleton.SafeIffPointer`).
- A row that is appended after a walk took the last row is missed, although the walk has not been told
  of the end yet: the list iterator is at the end already (`SnmpTable.AddedRowIsToldIff`,
  `SnmpTable.LateRowIsMissed`).
- A row without index values ends a walk as far as its caller can tell, and hides all rows behind it
  (`SnmpTable.CallerLearns`, `SnmpTable.RowsAreHidden`).
- `argv()` is documented to return the original command line. It returns the tokens sorted into switches
  and arguments, trimmed, without the program name and without the separator of an empty value
  (`CommandLine.OriginalIff`, `CommandLine.ProgramNameIsLost`). The last makes the result read
  differently for some switches (`CommandLine.FixpointIffNoBadSwitch`, `CommandLine.SeparatorAloneIsBad`).
- Switch names are documented to be case-insensitive; the code compares them as they are
  (`SwitchNames.IgnoresCaseIff`, `SwitchNames.AllIgnoreCaseIff`, `SwitchNames.CapitalIsMissed`).
- `InitFromArgv` on an object that was used before keeps its old switches
  (`CommandLine.CommandLine.InitFromArgv`, `CommandLine.ReuseKeepsSwitch`).
- The reader's header lists its deviations from RFC 4627. The code has more. It refuses four-digit
  escapes (`JsonStrict.StrictIsReadIff`, `JsonStrict.UnicodeEscapeIsRefused`), and it accepts comments, a
  vertical tab escape and two-digit hex escapes, raw control characters in strings, and anything after
  a NUL character (`JsonStrict.AcceptedIsStrictIff`, `JsonStrict.CommentIsAccepted`,
  `JsonStrict.UnitIsAccepted`, `JsonStrict.NulTailIsAccepted`).

## Conventions

- The bucket layouts compute with logarithms and doubles. Here the exponential step is the integer n
  with (2n-1)^k <= 2^k c^(k-1) max < (2n+1)^k, where c is the last boundary and k the number of
  boundaries to place, and the linear boundary is an exact rounded quotient.
- A character is one byte. Text in memory is followed by one NUL character, and reads past it are
  excluded by the preconditions of the reading functions.
- Conversion of text to floating point is a parameter of the JSON reader: any function from texts to
  finite numbers or nothing.
- Atomic operations are sequentially consistent, and a critical section under a lock is one step; where a
  lock guards a loop over memory that others write without it, each round of the loop is a step.
- The protocol of additions takes the row of each counter as given, and that of lookups finds it;
  `StatsCounters.CountersAddUp` joins them. The ints in front of the grid of cells, where the counter
  names end, are a part of their own in the protocol of additions.
- Signed overflow of 32-bit sums is taken modulo 2^32.
- Objects of the recorder live in explicit heaps, so that deletion and sharing are visible; a new object
  may get the address of a deleted one.

## Model

| member | source | states |
|---|---|---|
| `Powers.Bernoulli` | src/chromium/metrics/histogram.cc:352-368 | (x+y)^k >= x^(k-1)(x+ky) for all naturals and k > 0: the inequality behind the room the rounded root leaves |
| `BucketLayout.RoundedRootIsUnique` | src/chromium/metrics/histogram.cc:359-364 | exp(log c + (log max - log c)/k) rounded half up is one integer: whatever satisfies the rounding inequality is it |
| `BucketLayout.RootStepIs` | src/chromium/metrics/histogram.cc:359-368 | a boundary next to c with k to place is the n with (2n-1)^k <= (2c)^(k-1) 2max < (2n+1)^k if n is above c, and c + 1 otherwise |
| `BucketLayout.ExponentialSteps` | src/chromium/metrics/histogram.cc:352-377 | every boundary of the exponential layout from the minimum to the maximum is such a step from the one before |
| `BucketLayout.RoomRemains` | src/chromium/metrics/histogram.cc:356-368 | with k boundaries to place in at least k values, the next boundary (rounded root, or one more than the last) leaves room for the other k-1 |
| `BucketLayout.BoundariesFit` | src/chromium/metrics/histogram.cc:352-368 | the boundaries placed after any start strictly grow and the last one is the maximum |
| `BucketLayout.ExponentialLayoutIsValid` | src/chromium/metrics/histogram.cc:352-377 | for all arguments the source asks for: starts at 0, then the minimum, the last bucket starts at the maximum exactly, ends at INT_MAX, strictly increasing |
| `BucketLayout.GeometricBoundary` | src/chromium/metrics/histogram.hh:12-23 | if the maximum is the minimum times q^k, boundary i is the minimum times q^i, as in the documented example 1, 2, 4, ..., 64 |
| `BucketLayout.LinearEnds` | src/chromium/metrics/histogram.cc:718-729 | the rounded interpolation hits minimum and maximum exactly |
| `BucketLayout.LinearWidth` | src/chromium/metrics/histogram.cc:718-729 | each linear bucket has at least one value and differs by less than one from the even share |
| `BucketLayout.LinearIsRounded` | src/chromium/metrics/histogram.cc:718-729 | linear boundary i is the weighted mean of minimum and maximum rounded to the nearest integer, halves up |
| `BucketLayout.LinearLayoutIsValid` | src/chromium/metrics/histogram.cc:652-666 | the linear layout has the same four end points as the exponential one and is strictly increasing |
| `BucketLayout.CustomStartsCorrect` | src/chromium/metrics/histogram.cc:788-806 | push, sort and unique leave 0 and the listed values, each once, in order, and nothing else; 1 is added exactly if nothing but 0 was listed |
| `BucketLayout.CustomLayoutIsValid` | src/chromium/metrics/histogram.cc:848-856 | with INT_MAX at the end the custom starts are a strictly increasing layout |
| `RangeChecksum.TableIsRemainders` | src/chromium/metrics/histogram.cc:24-68 | all 256 table entries are the remainders of division by the reversed polynomial 0xedb88320 |
| `RangeChecksum.TopBytesDiffer` | src/chromium/metrics/histogram.cc:24-68 | no two table entries share their top byte |
| `RangeChecksum.Crc32` | src/chromium/metrics/histogram.cc:490-501 | the loop over the four bytes of a range computes four table steps, lowest byte first |
| `RangeChecksum.StepBack` | src/chromium/metrics/histogram.cc:499-500 | the upper bytes of a new sum determine the table entry that was used and the next upper bytes of the old sum |
| `RangeChecksum.Crc32SeparatesRanges` | src/chromium/metrics/histogram.cc:490-501 | for a fixed running sum, different 32-bit ranges give different sums |
| `RangeChecksum.Crc32SeparatesSums` | src/chromium/metrics/histogram.cc:490-501 | for a fixed range, different running sums give different sums |
| `RangeChecksum.OneChangeIsDetected` | src/chromium/metrics/histogram.cc:303-305 | changing any one range leaves the checksum the same if and only if it is the last range, which the sum does not cover |
| `RangeChecksum.RangeDivides` | src/chromium/metrics/histogram.cc:490-501 | taking in the four bytes of a range by table steps is adding it as a 32-bit word in two's complement and dividing 32 times by the polynomial |
| `RangeChecksum.ChecksumIsBitwise` | src/chromium/metrics/histogram.cc:457-464 | the checksum is the last of a list of sums: the first is the number of ranges, and each range but the last, added as a word and followed by 32 steps of division, gives the next |
| `RangeChecksum.CalculateRangeChecksum` | src/chromium/metrics/histogram.cc:457-464 | the loop computes the bitwise CRC seeded with the number of ranges over all ranges but the last |
| `Histograms.TallyTotal` | src/chromium/metrics/histogram.cc:613-621 | for any run of samples the bucket counts add up to the number of samples and to the redundant count |
| `Histograms.RunShowsNoError` | src/chromium/metrics/histogram.cc:225-267 | no inconsistency is exhibited by a layout with its own checksum and the tally of any run of samples |
| `Histograms.RowsAddUp` | src/chromium/metrics/histogram.cc:195-218 | on every printed bucket line past + current + remaining is the total |
| `Histograms.SampleSet.Accumulate` | src/chromium/metrics/histogram.cc:602-611 | adds to one count, the sum and the redundant count and changes nothing else |
| `Histograms.SampleSet.TotalCount` | src/chromium/metrics/histogram.cc:613-621 | the sum of all counts |
| `Histograms.SampleSet.Add` | src/chromium/metrics/histogram.cc:623-629 | adds another set bucket by bucket, sum and redundant count included |
| `Histograms.Histogram.constructor` | src/chromium/metrics/histogram.cc:307-317 | clamps the arguments, zeroes all ranges and counts and sets the last range to INT_MAX |
| `Histograms.Histogram.InitializeBucketRange` | src/chromium/metrics/histogram.cc:352-377 | fills the shared range vector in place with the exponential layout, each range the rounded root of what the one before leaves; checksum and empty samples are consistent with it |
| `Histograms.Histogram.InitializeLinearBucketRange` | src/chromium/metrics/histogram.cc:718-729 | the same for the linear layout, each range a rounded mean of minimum and maximum |
| `Histograms.Histogram.InitializedCustomBucketRange` | src/chromium/metrics/histogram.cc:848-856 | the same for the custom layout |
| `Histograms.Histogram.BucketIndex` | src/chromium/metrics/histogram.cc:383-406 | the binary search finds the bucket with ranges(i) <= value < ranges(i+1) |
| `Histograms.Histogram.Add` | src/chromium/metrics/histogram.cc:126-135 | after any run of calls count i is the number of clamped samples in bucket i, the redundant count their number and the sum their sum |
| `Histograms.Histogram.AddSampleSet` | src/chromium/metrics/histogram.cc:141-143 | the samples of two runs over the same ranges are tallied together |
| `Histograms.Histogram.FindCorruption` | src/chromium/metrics/histogram.cc:225-267 | each flag is set if and only if its defect is there: checksum, order, total too high by more than 1 or too low by more than 2^31, total too low by 2 to 2^31 - 1 |
| `Histograms.WriteAscii` | src/chromium/metrics/histogram.cc:157-219 | the printed lines are in order, carry the exact past, current and remaining totals, cover every non-empty bucket and skip only empty ones |
| `Histograms.NewExponential` | src/chromium/metrics/histogram.cc:82-108 | what FactoryGet builds before registration: clamped arguments give a valid histogram without samples whose ranges are the rounded roots |
| `Histograms.NewLinear` | src/chromium/metrics/histogram.cc:652-679 | the same with the rounded means |
| `Histograms.NewCustom` | src/chromium/metrics/histogram.cc:788-812 | the same for lists of custom ranges |
| `Histograms.ArrayToCustomRanges` | src/chromium/metrics/histogram.cc:825-838 | entry 2i is value i and entry 2i + 1 its successor |
| `Histograms.ListedValueIsAlone` | src/chromium/metrics/histogram.hh:632-638 | a sample that falls into the bucket of a listed value is that value |
| `Histograms.ListedValueIsCounted` | src/chromium/metrics/histogram.hh:632-638 | after any run the count of that bucket is the number of times the value was added |
| `StatisticsRecorder.SharedIffEqual` | src/chromium/metrics/histogram.cc:954-993 | two registered histograms use one range object if and only if their ranges are equal |
| `StatisticsRecorder.MatchFinds` | src/chromium/metrics/histogram.cc:972-986 | the search of a checksum list finds an equal vector if there is one |
| `StatisticsRecorder.ShareKeeps` | src/chromium/metrics/histogram.cc:954-993 | filing or sharing a vector keeps interning intact, keeps every other histogram alive with its ranges and does not change the ranges of the histogram itself |
| `StatisticsRecorder.FirstKeeps` | src/chromium/metrics/histogram.cc:938-945 | registering a new name keeps the registry sound and returns the histogram itself |
| `StatisticsRecorder.DuplicateKeeps` | src/chromium/metrics/histogram.cc:946-949 | a second registration of a name deletes only the newcomer and returns the first histogram |
| `StatisticsRecorder.RegisteredIsFound` | src/chromium/metrics/histogram.cc:1046-1058 | after a registration the name is found with the histogram that registration returned, which is alive and carries the name, and every other name is found as before |
| `StatisticsRecorder.Recorder.Equals` | src/chromium/metrics/histogram.cc:1090-1100 | true if and only if checksums and vectors are equal |
| `StatisticsRecorder.Recorder.RegisterOrDeleteDuplicateRanges` | src/chromium/metrics/histogram.cc:954-993 | the loop over the list of a checksum does what the specification of sharing says |
| `StatisticsRecorder.Recorder.RegisterOrDeleteDuplicate` | src/chromium/metrics/histogram.cc:922-951 | the critical section does what the specification of registration says |
| `FactoryProtocol.StepKeeps` | src/chromium/metrics/histogram.cc:99-108 | every step of every thread (load, find, build, register, store) keeps the invariant of the registry and of all threads |
| `FactoryProtocol.RegistrationIsNeverBlocked` | src/chromium/metrics/histogram.cc:922-951 | in every reachable state a thread that has built a histogram can register it |
| `FactoryProtocol.CallsAgree` | src/chromium/metrics/histogram.cc:99-114 | in every interleaving, two calls return the same histogram if and only if they ask for the same name; it is alive, carries that name, and has the ranges that some site asks for under it |
| `FactoryProtocol.PointersAgree` | src/chromium/metrics/histogram.hh:118-132 | in every interleaving a static pointer refers to the registered histogram of its site |
| `FactoryProtocol.ReachableSharing` | src/chromium/metrics/histogram.cc:954-993 | in every reachable state registered histograms share a range object if and only if their ranges are equal |
| `FactoryProtocol.RunIsStable` | src/chromium/metrics/histogram.cc:922-951 | once registered, a histogram stays registered and alive with the ranges it had, whatever runs afterwards |
| `StatsLayout.ComputeMappedPointers` | src/chromium/metrics/stats_table.cc:200-233 | names, tids, pids, counter names and cells start where the part before ends, in that order and without padding, and the last ends at the size the constructor asked for |
| `StatsLayout.PartsFit` | src/chromium/metrics/stats_table.cc:249-258 | every part lies inside the segment at an offset divisible by four |
| `StatsLayout.PartsAreApart` | src/chromium/metrics/stats_table.cc:200-233 | no two parts overlap: header, names, tids, pids, counter names and all (counter, slot) cells |
| `StatsLayout.OwnCellIffSlot` | src/chromium/metrics/stats_table.cc:360-368 | a location is apart from everything else if and only if its slot is at least 1; slot 0, which nothing guards against, is the last cell of the row before |
| `StatsSlots.StoredIsVisible` | src/chromium/metrics/stats_table.cc:305-310 | a stored thread name looks empty if and only if the name starts with a NUL character |
| `CStrings.StoredIsCopy` | src/chromium/metrics/stats_table.cc:305-310 | a stored name is the text up to its first NUL, or as much of it as fits beside the final NUL; the empty name is stored as <unknown> |
| `StatsSlots.GetRowValue` | src/chromium/metrics/stats_table.cc:381-392 | the loop adds up, modulo 2^32, the cells of a row whose slots carry the process id, or the whole row for id 0 |
| `StatsSlots.ProcessSumUpdate` | src/chromium/metrics/stats_table.cc:381-392 | a store to a cell of the row moves the sum of a process by the difference if the slot carries its id, or for id 0, and otherwise not at all |
| `StatsReaders.ReadBesideWriters` | src/chromium/metrics/stats_table.cc:381-392 | a reader of a row beside any steps of writers between its reads gets, modulo 2^32, the sum of the additions completed before it began and of some of those completed while it read |
| `StatsSlots.ClaimStep` | src/chromium/metrics/stats_table.cc:298-313 | the slot found empty under the lock is still empty when it is claimed, unlocked unregistering notwithstanding |
| `StatsSlots.StoreStep` | src/chromium/metrics/stats_counters.cc:29-33 | between load and store of an addition nobody else writes the cell, so the row gains exactly the addition |
| `StatsSlots.NoAdditionIsLost` | src/chromium/metrics/stats_counters.hh:23-24 | in every run of lookups, registrations and additions in which each thread that starts an addition has a slot or is among the first to look the counter up, and no refusal of a slot falls between another thread's test and read of the cached row: no two threads hold one slot, and the value of every row is the sum of the additions completed on its counters, across reuse of slots |
| `StatsRefusals.SlotHoldersAreSafe` | src/chromium/metrics/stats_table.hh:70-81 | in every run in which only threads with slots start additions, slots are exclusive and the value of every row is the sum of the additions completed on its counters |
| `StatsRefusals.SafeIffUndisturbed` | src/chromium/metrics/stats_counters.cc:39-63 | in a state of such a run the rows are certain to add up, whatever threads with slots go on to count, if and only if no lookup of a counter in use can still be refused a slot, or nobody has or can get one |
| `StatsRefusals.SafeStartIff` | src/chromium/metrics/stats_counters.cc:39-63 | when a thread starts an addition of anything but zero modulo 2^32, the rows are certain to add up afterwards if and only if no lookup under way can be refused, and the thread has a slot, or the counter is out of use for good, or it has no row cached yet and nobody has or can get a slot |
| `StatsRefusals.LateThreadMisplaces` | src/chromium/metrics/stats_counters.cc:39-63 | a run in which a thread without a slot finds the row cached: its addition changes the end of a counter name instead of its row |
| `StatsRefusals.RefusalMisplaces` | src/chromium/metrics/stats_counters.cc:44-58 | a run in which a thread is refused a slot between the two reads of the cached row by a thread that has one: the addition of the latter changes the end of a counter name instead of its row |
| `StatsSlots.RefusalIsForAll` | src/chromium/metrics/stats_counters.cc:48-54 | a thread that finds no empty slot ends the use of the counter for all threads: unless another first lookup is under way, in every later run whoever tests the cached row is given no location |
| `StatsSlots.NoThreadIsBlocked` | src/chromium/metrics/stats_table.cc:290-321 | a thread in the middle of an operation can always take its next step, unless it waits for the lock; then the thread that has the lock can |
| `StatsSlots.RegisterAlone` | src/chromium/metrics/stats_table.cc:290-321 | an uninterrupted registration of the protocol has the effect of the method |
| `StatsSlots.ThreadSlots.FindEmptyThread` | src/chromium/metrics/stats_table.cc:458-479 | the scan finds the first slot without a name, or 0 |
| `StatsSlots.ThreadSlots.RegisterThread` | src/chromium/metrics/stats_table.cc:290-321 | fills name, tid and pid of the first empty slot, the name cut to 31 characters, or changes nothing |
| `StatsSlots.ThreadSlots.UnregisterThread` | src/chromium/metrics/stats_table.cc:444-456 | empties the name of one slot and nothing else |
| `StatsSlots.SafeIffVisible` | src/chromium/metrics/stats_table.cc:301-310 | additions are conserved in every run guarded like that under a thread name if and only if it does not start with a NUL character |
| `StatsNames.RowFromGood` | src/chromium/metrics/stats_table.cc:481-501 | the search ends at the row that holds the name, or else at the free row noted before, or else at the first one further on, or else at 0 |
| `StatsNames.AddRowGood` | src/chromium/metrics/stats_table.cc:503-531 | adding a name of 1 to 63 characters keeps all taken rows and leaves exactly one row with it, unless the table is full of others |
| `StatsNames.StepKeeps` | src/chromium/metrics/stats_table.cc:338-358 | every step of a lookup keeps rows distinct, caches right and all earlier answers true |
| `StatsNames.LookupsAgree` | src/chromium/metrics/stats_table.cc:338-358 | in every interleaving of threads and processes rows are distinct, every cache entry is the row of its name, all lookups of one name give one answer, and different names never get one row |
| `StatsNames.AnswersAreRows` | src/chromium/metrics/stats_table.cc:338-358 | all answers of a run are one function of the name: where a search of the final table ends |
| `StatsNames.SafeIffGood` | src/chromium/metrics/stats_table.cc:503-531 | for every string: in all runs over it and names of 1 to 63 characters the lookups of each name agree and no row is given to two names, if and only if it has 1 to 63 characters before its first NUL |
| `StatsNames.CounterNames.FindCounterOrEmptyRow` | src/chromium/metrics/stats_table.cc:481-501 | the scan with its noted free row computes the specified row |
| `StatsNames.CounterNames.AddCounter` | src/chromium/metrics/stats_table.cc:503-531 | writes the name, cut to 63 characters, to the row that was found and caches it; changes nothing if there is none |
| `StatsNames.CounterNames.FindCounter` | src/chromium/metrics/stats_table.cc:338-358 | for every name the cached row, or the row that is added; for a name of 1 to 63 characters rows and cache stay right and the answer is the row of the name |
| `StatsCounters.StatsCounter.GetPtr` | src/chromium/metrics/stats_counters.cc:39-63 | looks its name up in the table and registers only at the first lookup, and only a thread without a slot; the location is the thread's own cell if and only if the thread had a slot or this was the first lookup |
| `StatsCounters.GetPtrAlone` | src/chromium/metrics/stats_counters.cc:39-63 | the steps of the protocol, taken without interruption, give the cached row, slot, table and location that the method gives |
| `StatsCounters.OwnLocationIff` | src/chromium/metrics/stats_counters.cc:39-63 | the location overlaps nothing else in the segment if and only if the thread has a slot or looks the counter up first and can be registered |
| `StatsCounters.LookupsGiveRows` | src/chromium/metrics/stats_table.cc:338-358 | what the lookups of any run answer to the names of counter objects is one row for each, and one row for two of them if and only if their names are the same |
| `StatsCounters.CountersAddUp` | src/chromium/metrics/stats_counters.hh:23-24 | lookups and additions joined: over the rows that any run of lookups answers, in every guarded run of additions the value of a counter's row is the sum of the additions completed on counters of its name |
| `Singleton.StepKeeps` | src/chromium/memory/singleton.hh:229-253 | every atomic step keeps the invariant, and the word moves only from null to the marker to a pointer |
| `Singleton.OnceOnly` | src/chromium/memory/singleton.hh:229-253 | in every interleaving at most one thread is inside New or about to store, New returns at most once and is not called again, nobody returns before the store, and everybody returns that pointer |
| `Singleton.EveryCallCanReturn` | src/chromium/memory/singleton.cc:12-28 | from every reachable state every thread, a spinning one included, can get its call to return |
| `Singleton.SafeIffPointer` | src/chromium/memory/singleton.hh:229-253 | for a New that always returns one word: at most one creation and no call stuck for ever, if and only if the word is neither 0 nor the marker |
| `ValuePaths.KeysAreParts` | src/chromium/values.cc:365-387 | the keys of a path are what lies between its dots |
| `ValuePaths.GetAfterSet` | src/chromium/values.cc:365-387 | what is read at any path after a set at any path: the value, a part of it, the dictionary on the way, or what was there before |
| `ValuePaths.SetIsLocal` | src/chromium/values.cc:365-387 | the path that was set reads the value, and every diverging path reads as before |
| `ValuePaths.GetAfterRemove` | src/chromium/values.cc:596-610 | what is read at any path after any path was removed: nothing at it and below it, dictionaries without the rest of the path above it, everything else as before |
| `ValuePaths.RemoveByParent` | src/chromium/values.cc:596-610 | removing a path erases its last key from the dictionary at the rest of the path, or does nothing if that is no dictionary |
| `ValuePaths.GetAfterMerge` | src/chromium/values.cc:633-651 | what is read at any path after a merge, in terms of what both sides read there |
| `ValuePaths.MergeTwice` | src/chromium/values.cc:633-651 | merging the same dictionary twice equals merging it once |
| `OwnedValues.DictionaryValue.SetWithoutPathExpansion` | src/chromium/values.cc:406-417 | one entry of the owner changes and the tree stays a tree |
| `OwnedValues.DictionaryValue.Set` | src/chromium/values.cc:365-387 | walks down in place, creating or replacing dictionaries; the new value of the tree is the old one with the path set |
| `OwnedValues.DictionaryValue.Get` | src/chromium/values.cc:419-436 | the loop finds the item that the value of the tree has at the path |
| `OwnedValues.DictionaryValue.RemoveWithoutPathExpansion` | src/chromium/values.cc:612-626 | erases one key and reports whether it was there |
| `OwnedValues.DictionaryValue.Remove` | src/chromium/values.cc:596-610 | the new value of the tree is the old one with the path removed, and the result tells whether anything was there |
| `OwnedValues.DictionaryValue.DeepCopy` | src/chromium/values.cc:653-663 | a tree with the same value that shares no object with the original |
| `OwnedValues.DictionaryValue.MergeDictionary` | src/chromium/values.cc:633-651 | the new value is the recursive right-biased merge, in whatever order the keys are visited; another tree is not changed, and merging a dictionary with itself leaves it as it is |
| `JsonTheorems.GapSound` | src/chromium/json/json_reader.cc:587-640 | what is skipped between tokens is a sequence of blanks and comments of the grammar, or an unfinished comment at the end |
| `JsonTheorems.NumberSound` | src/chromium/json/json_reader.cc:359-394 | an accepted number token is a number of the grammar |
| `JsonTheorems.NumberEnds` | src/chromium/json/json_reader.cc:359-394 | a number of the grammar followed by a delimiter is accepted whole |
| `JsonTheorems.StringEnds` | src/chromium/json/json_reader.cc:410-453 | the scanner passes a string of the grammar up to its closing quote |
| `JsonTheorems.StringTokenSound` | src/chromium/json/json_reader.cc:410-516 | a string token that is decoded is a string of the grammar, and the result is its meaning |
| `JsonTheorems.NodeRead` | src/chromium/json/json_reader.cc:205-357 | every value of the grammar is read with its meaning if it nests no deeper than the limit allows, and refused as too deep otherwise |
| `JsonTheorems.ValueSound` | src/chromium/json/json_reader.cc:205-357 | every value that is read is a value of the grammar within the limit |
| `JsonTheorems.ReaderMatchesGrammar` | src/chromium/json/json_reader.cc:153-189 | a text is accepted with value v if and only if the grammar derives v from it with at most 100 nested values |
| `JsonTexts.DecodeStringIs` | src/chromium/json/json_reader.cc:455-516 | a string token is decoded to s if and only if it is made of one unit for each character of s, by code points: the character itself, its letter behind a backslash, or its two hexadecimal digits |
| `JsonTexts.ReaderMatchesTexts` | src/chromium/json/json_reader.cc:153-189 | a text is accepted with value v if and only if it is, by its characters, a text of v of at most 100 levels: words, numbers, strings in any form, gaps, commas, members with the last of a key counting, byte-order mark and ignored end |
| `JsonErrors.TrailingItemIsReported` | src/chromium/json/json_reader.cc:262-276 | inside any open arrays and objects, a comma before the end of an array is reported as such at the bracket, unless it is allowed |
| `JsonErrors.TrailingMemberIsReported` | src/chromium/json/json_reader.cc:322-336 | the same of objects |
| `JsonErrors.UnquotedKeyIsReported` | src/chromium/json/json_reader.cc:292-300 | where a key must stand, anything but a quote or the end of the object is reported as an unquoted key, there |
| `JsonErrors.BadEscapeIsReported` | src/chromium/json/json_reader.cc:415-444 | behind any string text, a backslash without an escape is reported as an invalid escape, right behind it |
| `JsonErrors.NoValueIsReported` | src/chromium/json/json_reader.cc:189-191 | where a value must stand inside arrays and objects, what starts none is a syntax error there |
| `JsonErrors.NestingIsReported` | src/chromium/json/json_reader.cc:205-210 | inside 100 open arrays and objects, whatever stands for a value is reported as nested too deep, there |
| `JsonErrors.MoreDataIsReported` | src/chromium/json/json_reader.cc:181-187 | behind the root, anything but gaps and a NUL is reported as unexpected, there |
| `JsonTheorems.GrammarIsUnambiguous` | src/chromium/json/json_reader.cc:153-189 | a text has at most one value, however it is derived |
| `JsonStrict.StrictIsReadIff` | src/chromium/json/json_reader.hh:9-18 | a text of RFC 4627 is read, with its meaning, if and only if it has no four-digit escape, nests at most 100 values and its numbers convert |
| `JsonStrict.DerivationIsUnique` | src/chromium/json/json_reader.cc:153-189 | a text is derived by one document only, with all its gaps, comments, pieces and commas |
| `JsonStrict.AcceptedIsStrictIff` | src/chromium/json/json_reader.hh:9-18 | a text that is read is a text of RFC 4627 if and only if its one derivation has no mark, comment, \v, \x, raw control character, trailing comma or text after a NUL, and its root is a container |
| `JsonStrict.NodeRefused` | src/chromium/json/json_reader.cc:205-357 | every node of tokens in the right places that has no meaning, or is nested too deep, is refused wherever it stands |
| `JsonStrict.UnicodeEscapeIsRefused` | src/chromium/json/json_reader.cc:491-506 | a text of RFC 4627 with a four-digit escape is not read |
| `JsonStrict.NulTailIsAccepted` | src/chromium/json/json_reader.cc:518-527 | after a NUL character anything is accepted, and no such text is one of RFC 4627 |
| `JsonStrict.CommentIsAccepted` | src/chromium/json/json_reader.cc:608-640 | a comment is accepted: [/**/] is an empty list, and no text of RFC 4627 |
| `JsonStrict.UnitIsAccepted` | src/chromium/json/json_reader.cc:419-442 | a vertical tab escape, its two-digit form and the raw character are accepted in a string, and no text of RFC 4627 has them |
| `JsonPrinter.PrintCorrect` | src/chromium/json/json_reader.cc:205-357 | the printed form of a tree is in the grammar, means the tree and is no deeper |
| `JsonPrinter.PrintedIsRead` | src/chromium/json/json_reader.cc:153-189 | every list or dictionary tree of height up to 100 is read back from its printed text under all reader settings |
| `JsonPrinter.PrintedIsText` | src/chromium/json/json_reader.cc:153-189 | what is printed for a tree is a text of it by its characters |
| `JsonReader.ReadInt` | src/chromium/json/json_reader.cc:31-50 | the digit loop ends where the run of digits does, and rejects an empty one or leading zeros |
| `JsonReader.ParseNumberToken` | src/chromium/json/json_reader.cc:359-394 | the token is the longest number at the position, or invalid |
| `JsonReader.ReadHexDigits` | src/chromium/json/json_reader.cc:55-64 | reads the given number of hex digits and no further than the terminator |
| `JsonReader.ScanToken` | src/chromium/json/json_reader.cc:410-453 | the string loop ends at the closing quote, at the first bad escape or at the end of the text |
| `JsonReader.DecodeStringToken` | src/chromium/json/json_reader.cc:455-516 | the decoding loop yields s if and only if the token is made of units that stand for the characters of s; nothing if there is no such s |
| `JsonReader.LineColumnIs` | src/chromium/json/json_reader.cc:646-671 | the line is one more than the line feeds, the column one more than the characters since the last of them |
| `JsonReader.Reader.SetErrorCode` | src/chromium/json/json_reader.cc:646-671 | line and column, from one, of the text between start and position |
| `JsonReader.Reader.EatWhitespaceAndComments` | src/chromium/json/json_reader.cc:587-606 | skips exactly a gap of the grammar |
| `JsonReader.Reader.EatComment` | src/chromium/json/json_reader.cc:608-640 | skips one comment if there is one |
| `JsonReader.Reader.ParseToken` | src/chromium/json/json_reader.cc:518-585 | the kind and length of the next token after a gap; records only an invalid escape |
| `JsonReader.Reader.DecodeNumber` | src/chromium/json/json_reader.cc:396-408 | a 32-bit integer if it fits, else a finite double, else nothing |
| `JsonReader.Reader.BuildValue` | src/chromium/json/json_reader.cc:205-357 | value, position, error fields and nesting depth are those of the specification; depth is restored when a value is returned |
| `JsonReader.Reader.BuildArray` | src/chromium/json/json_reader.cc:247-281 | the array loop, trailing commas included |
| `JsonReader.Reader.BuildObject` | src/chromium/json/json_reader.cc:283-337 | the object loop: keys, colons, last duplicate wins |
| `JsonReader.Reader.JsonToValue` | src/chromium/json/json_reader.cc:153-189 | returns v if and only if the text is one of v by its characters, within the limit; otherwise reports code, line and column of the specification |
| `NumberConversions.ToUnsignedIsMagnitude` | src/chromium/string_number_conversions.cc:42-47 | casting the wrapped negation to unsigned gives the magnitude, for the minimum too |
| `NumberConversions.IntToString` | src/chromium/string_number_conversions.cc:66-98 | the back-to-front writer yields the decimal text and never reaches the front of its 3*sizeof+1 buffer |
| `NumberConversions.ParsePositive` | src/chromium/string_number_conversions.cc:206-253 | digits up to the first non-digit are accumulated; on overflow the result is the maximum |
| `NumberConversions.ParseNegative` | src/chromium/string_number_conversions.cc:206-269 | the same downwards to the minimum |
| `NumberConversions.ParseNumber` | src/chromium/string_number_conversions.cc:171-197 | true if and only if the text is an optional sign and digits with a value in range; the output is that value, or the best effort on failure |
| `NumberConversions.StringToInt` | src/chromium/string_number_conversions.cc:360-370 | the same for 32 and 64 bits |
| `NumberConversions.IntTextRoundTrip` | src/chromium/string_number_conversions.cc:66-98 | parsing the text of any value of the type gives the value, the minimum included |
| `NumberConversions.DigitOfPlace` | src/chromium/string_number_conversions.cc:66-98 | the digit i places from the end of a number's text is its digit of weight 10^i |
| `NumberConversions.FirstDigitCounts` | src/chromium/string_number_conversions.cc:106-116 | the first digit of a text counts 10^n, n being the number of digits after it |
| `NumberConversions.SpacesAreSkipped` | src/chromium/string_number_conversions.cc:171-197 | blanks and the characters 9 to 13 in front do not change the output |
| `NumberConversions.HexEncode` | src/chromium/string_number_conversions.cc:410-422 | two digits per byte, high half first, each 0 to 9 or A to F by code point |
| `NumberConversions.HexStringToBytes` | src/chromium/string_number_conversions.cc:302-316 | true if and only if the text is a non-empty even number of hex digits; the bytes are those digits |
| `NumberConversions.HexRoundTrip` | src/chromium/string_number_conversions.cc:410-431 | decoding the encoding of any non-empty bytes gives the bytes |
| `Vlog.MatchesIsInLanguage` | src/chromium/vlog.hh:65-74 | matching by the first pattern character is being cut into one piece per pattern character |
| `Vlog.MatchVlogPattern` | src/chromium/vlog.cc:116-167 | true if and only if the text is in the language of the pattern; each recursive call follows a dropped star |
| `Vlog.OneCharacter` | src/chromium/vlog.cc:116-167 | a pattern of one character matches anything if it is a star, one character if it is a question mark, either slash if it is a slash, and else itself |
| `Vlog.Concatenation` | src/chromium/vlog.cc:116-167 | a pattern behind another one matches what is behind a match of that, so the language follows from its characters |
| `Vlog.ModuleOfParts` | src/chromium/vlog.cc:76-89 | for every path, put together from directory, name and extension, any of which may be missing: the module is the name without one -inl at its end |
| `Vlog.VlogInfo.GetVlogLevel` | src/chromium/vlog.cc:93-105 | the level of the first pattern that applies to the file, or the general one |
| `CommandLine.AppendedIsTaken` | src/chromium/command_line.cc:22-67 | by characters: up to the first -- a token that starts with a dash is a switch, named by the text before its first =, with the key without two dashes or else one; all others are arguments |
| `CommandLine.CommandLine.AppendSwitchNative` | src/chromium/command_line.cc:187-200 | inserts the switch behind the other switches with a prefix and its value, and sets the key that is left without two dashes or else one |
| `CommandLine.CommandLine.AppendSwitchesAndArguments` | src/chromium/command_line.cc:51-67 | the loop trims the tokens and takes them as switches and arguments by their characters |
| `CommandLine.CommandLine.InitFromArgv` | src/chromium/command_line.cc:137-141 | drops the program name, takes the trimmed tokens by their characters and adds to the old switch map; equal to parsing into a new object if and only if every old key is given again |
| `CommandLine.ValuedIff` | src/chromium/command_line.cc:187-192 | old switches are without effect on the map if and only if each of their keys is the key of a switch that is given |
| `CommandLine.ReuseKeepsSwitch` | src/chromium/command_line.cc:137-141 | parsing --a and then an empty command line into the same object leaves the switch |
| `CommandLine.CommandLine.GetArgs` | src/chromium/command_line.cc:216-225 | all arguments but the first that is -- |
| `CommandLine.ParseConserves` | src/chromium/command_line.cc:51-67 | no token is lost or added |
| `CommandLine.OrderKept` | src/chromium/command_line.cc:51-67 | switches before the terminator and all other tokens each keep their order |
| `CommandLine.LastValueWins` | src/chromium/command_line.cc:187-192 | a key has the value of its last switch |
| `CommandLine.OtherKeysKept` | src/chromium/command_line.cc:187-192 | a key that no switch has keeps the value it had |
| `CommandLine.OriginalIff` | src/chromium/command_line.hh:67-68 | argv() is the vector that was parsed if and only if that has an empty program name, trimmed tokens, no switch whose first = is its last character, and no switch behind an argument |
| `CommandLine.ProgramNameIsLost` | src/chromium/command_line.cc:137-141 | a vector that argv() does not give back: the program name alone |
| `CommandLine.FixpointIffNoBadSwitch` | src/chromium/command_line.cc:137-141 | parsing the result again gives the same tokens, divider and switch map if and only if no switch ends in its only = with the terminator or white space before it |
| `CommandLine.SeparatorAloneIsBad` | src/chromium/command_line.cc:35-48 | such a switch: --= is stored as the terminator, and is no switch the next time |
| `CommandLine.PlainTokensAreSafe` | src/chromium/command_line.cc:35-48 | tokens without white space other than --= have no such switch |
| `SwitchNames.SameLetter` | src/chromium/command_line.hh:70-72 | two characters are one up to case if they are equal, or one is a capital letter and the other stands 32 above it |
| `SwitchNames.IgnoresCaseIff` | src/chromium/command_line.hh:70-72 | a lookup of a parsed line agrees with one that ignores case if and only if no switch has the key in any spelling, or the spelling looked up is there with the value of the last spelling |
| `SwitchNames.AllIgnoreCaseIff` | src/chromium/command_line.hh:70-72 | all lookups of a line agree if and only if changing the case of any one letter of a key gives a key with the same value |
| `SwitchNames.LowerCaseIsSafe` | src/chromium/command_line.hh:70-77 | if all switches of a line are spelled in lower case, every lookup in lower case agrees |
| `SwitchNames.CapitalIsMissed` | src/chromium/command_line.cc:163-165 | --Foo=1 is not found as foo |
| `SnmpTable.Contexts.GetFirstDataPoint` | src/snmp_table.cc:355-380 | an empty table gives nothing; otherwise a new context joins the list and the first row is given |
| `SnmpTable.Contexts.GetNextDataPoint` | src/snmp_table.cc:384-424 | gives the row at the cursor and moves on; tells nothing at the end or for a row without index; no other context changes |
| `SnmpTable.Contexts.FreeLoopContext` | src/snmp_table.cc:444-467 | moving up and erasing one place removes exactly that context and keeps the order of the others |
| `SnmpTable.RunKeeps` | src/snmp_table.cc:384-412 | in every run every walk took the rows from the first one on, in insertion order, each once, and its caller was told exactly those before the first without an index, and nothing only there or at the end |
| `SnmpTable.AddedRowIsToldIff` | src/snmp_table.cc:181-229 | a row appended during a walk is told to its caller if and only if the walk had not taken the last row before, and it and all rows before it have an index |
| `SnmpTable.WalkIsNeverBlocked` | src/snmp_table.cc:384-412 | every walk can always be asked for its next row |
| `SnmpTable.LateRowIsMissed` | src/snmp_table.cc:384-412 | a row appended right after the last one was taken is missed although the walk was not told of the end |
| `SnmpTable.WalksAreIndependent` | src/snmp_table.cc:18-37 | a walk goes as it would without any of the other walks |
| `SnmpTable.CallerLearns` | src/snmp_table.cc:328-424 | among any other walks, while no row is added: the answers up to the first that is nothing are all rows in order if and only if every row has an index; otherwise they stop right before the first without one |
| `SnmpTable.WalkEnds` | src/snmp_table.cc:384-412 | asked once more than there are rows left, every walk has told its caller of the end |
| `SnmpTable.RowsAreHidden` | src/snmp_table.cc:328-350 | a first row without an index hides all rows behind it: the first answer is nothing |

## Left out

- RMC and Net-SNMP: rows are opaque but for whether their index columns can be set; handlers, column
  access and event propagation are not modelled.
- `root_map_` and tree walking of managed objects: bookkeeping around foreign calls.
- Null rows: `addRow` never stores one, so the loop that skips them is not modelled.
- Shutdown of the statistics recorder: all theorems are about the time while it is active.
- Recording of a detected mismatch in another histogram, logging, locks, stack traces, the event loop.
- Averages, percentages, bar widths and the text layout of printed histograms; `SampleSet::Subtract`.
- 64-bit overflow of sums: counts stay below 2^31 by precondition, so the sums do.
- OwnedValues.DictionaryValue.Set: the loop that walks down the path is a recursion here, because the
  ownership of every dictionary on the way is updated on the way back. The same holds of Remove.
- OwnedValues.DictionaryValue.MergeDictionary: the other tree is disjoint from this one, or is this one;
  merging with a part of itself, whose loop may delete the dictionary it runs over, is not modelled.
- Lists are plain values inside dictionaries; their methods, `Equals`, binary values and
  `CopyWithoutEmptyChildren` would add only easy members.
- StatsSlots.GetRowValue: the method reads the row in one step; interleaved readers of one process's
  cells are not modelled, those of the whole row are in StatsReaders.
- StatsNames.CounterNames.FindCounter: states the case of a process that runs alone; interleavings are
  the subject of StatsNames.LookupsAgree.
- `StatsCounter::Set`, timers and rates; `FindLocation`, which registers its thread every time.
- RFC 4627 on the level of bytes: which sequences are UTF-8 is not part of the strict grammar.
- Unsigned parsing, hexadecimal integers, and the text form of doubles.
- Vlog.VlogInfo.GetVlogLevel: the constructor takes patterns and levels that are already split;
  splitting the switch text is not modelled.
- `PrependWrapper`, `ParseFromString` and quoting of command lines.
- RangeChecksum.Crc32: models the branch that is compiled in, not the disabled hash.
