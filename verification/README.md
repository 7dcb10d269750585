# Verified model of the identifier and discovery core of dde-cooperation

This project models, in Dafny, the parts of the repository whose correctness is
not visible from reading one function, and proves what they guarantee over every
input and every run:

* **Time-based UUIDs** (`3rdparty/uuid`). The clock behind them is a state machine
  driven by a system clock that may stall, jump or run backwards. The central result
  is *when* timestamps are unique: over every run in which the time goes back fewer
  than 2^14 times, no tick is given out twice under one clock sequence **if and only
  if** no request finds the adjustment at its maximum and then reads a clock exactly
  one microsecond later. The bound of 2^14 is exact, and on a clock that keeps up with
  the requests no bound is needed at all. The guarantee is carried to processes sharing
  the state file, to threads that hand out cached blocks of 1000 from the daemon in any
  interleaving, to both together, and to hosts without a daemon. What it rests on is
  made exact as well: the daemon must grant 1000 timestamps, the lock on the file is
  enough if and only if no two threads share a process, and a fork is harmless if and
  only if the cache it copies is used up. The codecs below it (wire form, text form,
  comparison, reading the time back) are proved against byte-by-byte descriptions.
* **Avahi browsing** (`3rdparty/QtZeroConf/avahiclient.cpp`). After any run and
  the destructor every resolver was freed exactly once; the signals an application receives replay to exactly
  the published services as long as interface indices are not negative; and the table
  keyed by name and printed interface index is the table one would expect if and only if
  no service name is another one followed by the beginning of a printed index.
* **Android resolve queue** (`QZeroConfNsdManager.java`). One request in flight, no
  idling, nothing lost, first come first served in spite of requeueing.
* **TXT records** (`bonjour.cpp`) and **argument messages**
  (`src/singleton/singleapplication.cpp`). Round trips with their exact conditions.

## How the model reads

Code that updates state is a class or a method with a loop, proved against a function
on values; the theorems are about those functions and about runs of them. Integers are
unbounded, so every wrap-around, truncating store and C division is written out.
Bits that the C code ORs into a field are clear in the other operand, so the OR is a
sum. The system clock, `read`, the random seed, the daemon's answers and the Avahi and
Android callbacks are arbitrary inputs. A call of `get_clock` is one step, except in
`ClockHalves.dfy`, where it is two and the lock decides which calls may overlap.
`get_clock` polls the clock until it is content, so a call carries the sequence of
readings it sees; a call whose readings all stall is still spinning and has changed
nothing in the file.

| file | contents |
|---|---|
| `Bytes.dfy`, `Options.dfy`, `CText.dfy` | byte strings, optional values, numbers as C prints and scans them |
| `UuidLayout.dfy`, `UuidTime.dfy`, `UuidText.dfy` | wire form and order, timestamps in UUIDs, text form |
| `Clock.dfy`, `ClockFile.dfy`, `ClockHalves.dfy` | the clock, its state file and processes, overlapping calls and the lock |
| `TimeClients.dfy`, `SharedClients.dfy`, `Forks.dfy` | the caching threads, the same over the state file, processes that fork |
| `ReadLoops.dfy` | the two loops over `read` |
| `ServiceKey.dfy`, `ServiceTable.dfy`, `TableRefinement.dfy`, `AvahiBrowser.dfy` | Avahi browsing: keys, state machine, refinement, objects |
| `ResolveQueue.dfy`, `TxtRecords.dfy`, `ArgumentMessage.dfy` | Android queue, TXT records, argument messages |

## What turned out false of the code

* Successive single requests do not get increasing timestamps: the test against the
  maximum adjustment (gen_uuid.c:381) comes before the increment, so an eleventh tick of
  a microsecond exists, and it is the first tick of the next one. `SingleRequestsCanCollide`
  builds such a run from any state whose last time is a proper reading, `RunIsUniqueIff`
  and `WithoutDaemonUniqueIff` say exactly when it happens, and `NoTickThreeTimes` that,
  with fewer than 2^14 backward steps, it never gets worse than twice.
* All runs of bulk requests with a given number of backward steps repeat no tick if and only
  if that number is below 2^14 and their first request cannot collide
  (`SequenceBoundIsExact`). A bulk request moves the stored time ahead of the clock, so a
  second one within its hundred microseconds counts as a backward step.
* Reading the time back from a UUID is right exactly up to 2^60 ticks, and again for a
  stretch after the 64-bit register has wrapped (`TimeInvertsGeneration`).
* A TXT record is framed with its length in UTF-16 units but written in UTF-8, so
  publishing works exactly for ASCII records of at most 255 characters
  (`PublishedIsReadIff`).
* Two services share a table key if one name is the other followed by digits, or, with a
  negative index, by a minus sign with or without digits; the second then never gets a
  resolver (`KeysAreUniqueIff`, `AmbiguousNamesDiverge`, with `signed` for negative indices).
* The number of timestamps the daemon grants is never looked at: gen_uuid.c:545 copies the
  requested count into the reply buffer instead of the other way round, so a thread always
  believes that it was given 1000. For every number granted per refill, no run hands out a
  UUID twice if and only if it is at least 1000 (`GrantIsEnoughIff`); `ShortGrantRepeats`
  has the run for every smaller one.
* The record lock on the state file belongs to the process, while its descriptor and the
  statics belong to the thread. Two threads of one process whose calls overlap reserve the
  same tick (`OverlappedCallsRepeat`); the lock is enough, for ticks and for UUIDs, if and
  only if no two threads share a process (`LockIsEnoughIff`, `LockedUuidsDifferIff`).
* The cache is thread-local but not process-local: after a fork, parent and child hand out
  the same UUIDs. For every fork in a run within the conditions of `NeverHandedOutTwice`,
  hand-outs stay unique whatever comes after it if and only if the copied cache has nothing
  left (`ForkIsSafeIff`).
* A stored time of exactly zero is taken for a missing state (gen_uuid.c:364), so two calls
  that read it can share a tick (`ZeroReadingRepeats`). On a clock that
  shows given times, processes share no tick in any run without collisions and with fewer
  than 2^14 backward steps, if and only if zero is not among them (`NoTickIsSharedIff`).
* A published service does not follow its resolver: host, port and old TXT names stay
  (avahiclient.cpp:142-154). A reply is taken over if and only if the service is new, or
  has the same identity and no TXT names but those of the reply (`ReplyIsTakenOverIff`,
  and for two replies in a row `SecondReplyIsTakenOverIff`).
* The interface index is stored unsigned, so the signals about a service with a negative
  one do not lead back to its key (`PrintedKeyReplaysIff`).
* A TXT name with '=' in it does not arrive (`PairSplitsIff`), nor does an empty argument
  (`ArgumentsArriveIff`).

## Model

| member | source | states |
|---|---|---|
| `UuidLayout.Pack` | 3rdparty/uuid/pack.c:38-68 | the sixteen bytes written have every numeric field big-endian at its offset and the node behind them |
| `UuidLayout.Unpack` | 3rdparty/uuid/unpack.c:38-62 | the struct read is the one whose layout the bytes are |
| `UuidLayout.LayoutIsBijective` | 3rdparty/uuid/pack.c:38-68 | two wire forms are equal exactly if the structs are, so packing and unpacking are well defined inverses |
| `UuidLayout.WireRoundTrip` | 3rdparty/uuid/unpack.c:38-62 | unpacking after packing and packing after unpacking are both the identity |
| `UuidLayout.CompareIsLexicographic` | 3rdparty/uuid/compare.c:40-54 | comparing field by field has the same sign as comparing the sixteen bytes lexicographically |
| `UuidLayout.CompareIsTotalOrder` | 3rdparty/uuid/compare.c:42-54 | the comparison is antisymmetric, transitive and zero only on equal UUIDs |
| `UuidTime.OffsetIsTheReform` | 3rdparty/uuid/gen_uuid.c:391 | the offset added to the register is the time from 15 October 1582 to 1 January 1970 in units of 100 ns, by a Gregorian day count |
| `UuidTime.YearsAreWhole` | 3rdparty/uuid/uuid_time.c:68 | in that day count years follow each other without gap and have 366 days exactly if they are leap years |
| `UuidTime.PackTime` | 3rdparty/uuid/gen_uuid.c:577-582 | the bytes produced are the wire form of the stamp of register, sequence and node |
| `UuidTime.StampReadsBack` | 3rdparty/uuid/gen_uuid.c:577-582 | timestamp modulo 2^60, sequence and node can be read off the wire form; type is 1 and variant DCE |
| `UuidTime.StampsCollide` | 3rdparty/uuid/gen_uuid.c:577-582 | two stamps have one wire form exactly if sequence, node and the low 60 bits of the time agree |
| `UuidTime.TypeAndVariantBits` | 3rdparty/uuid/uuid_time.c:78-101 | for all sixteen-byte values the type is the high half of byte 6 and the variant is decided by the leading ones of byte 8 |
| `UuidTime.ReadTime` | 3rdparty/uuid/uuid_time.c:56-76 | the reading is the seconds and microseconds of the ticks since 1970, the subtraction wrapping at 2^64 |
| `UuidTime.TimeInvertsGeneration` | 3rdparty/uuid/uuid_time.c:63-70 | for every tick, the time read back is its microsecond if and only if the timestamp fits 60 bits or both overflows cancel |
| `UuidTime.GeneratedReadsBack` | 3rdparty/uuid/gen_uuid.c:379-391 | a UUID reads back as its clock reading for adjustments below ten and as the next microsecond, with carry, for ten |
| `UuidTime.NextIsPlusOne` | 3rdparty/uuid/gen_uuid.c:609-618 | the increment with carries adds one to the timestamp and keeps the version if and only if the timestamp is not the last; sequence and node never change |
| `UuidTime.NextWalksTheBlock` | 3rdparty/uuid/gen_uuid.c:609-618 | `k` increments of a stamp give the stamp `k` ticks later |
| `Clock.AcceptsFirstGoodPoll` | 3rdparty/uuid/gen_uuid.c:371-383 | a request is served by the first reading that does not stall |
| `Clock.GrantIsExact` | 3rdparty/uuid/gen_uuid.c:373-399 | start, length and sequence of the ticks given, from the reading and the state alone |
| `Clock.ReserveCountsTicks` | 3rdparty/uuid/gen_uuid.c:393-399 | a bulk reservation moves the last reserved tick by exactly the count less one through both carries and normalises the state |
| `Clock.StepKeepsWellFormed` | 3rdparty/uuid/gen_uuid.c:371-399 | every request keeps microseconds, adjustment and sequence in range, and the state names the last tick of the block given out |
| `Clock.StartsAfterLastTick` | 3rdparty/uuid/gen_uuid.c:373-391 | within an epoch a block never starts before the last reserved tick, and on it exactly in the colliding case |
| `Clock.ReachableStates` | 3rdparty/uuid/gen_uuid.c:371-399 | after every run the state is well formed and names last tick and sequence of the last block |
| `Clock.BlocksAreOrdered` | 3rdparty/uuid/gen_uuid.c:371-399 | in every run blocks are chained by (epoch, tick), strictly so for all but neighbours, and strictly for all without collisions |
| `Clock.SequenceFollowsEpoch` | 3rdparty/uuid/gen_uuid.c:376 | the sequence of a block is the first one plus its epoch modulo 2^14 |
| `Clock.RunIsUniqueIff` | 3rdparty/uuid/gen_uuid.c:371-399 | in every run with fewer than 2^14 backward steps, no tick, the one the run starts from included, is given out twice under one sequence if and only if no request collides |
| `Clock.FreshRunIsUniqueIff` | 3rdparty/uuid/gen_uuid.c:364-399 | the same for the given blocks alone, if the run starts with the adjustment below its maximum |
| `Clock.NoTickThreeTimes` | 3rdparty/uuid/gen_uuid.c:379-387 | with fewer than 2^14 backward steps no tick is given out three times under one sequence, collisions or not |
| `Clock.BlocksAreDisjoint` | 3rdparty/uuid/gen_uuid.c:371-399 | without collisions and with fewer than 2^14 backward steps the blocks of a run are disjoint, whatever the adjustment at the start |
| `Clock.BulkNeverCollides` | 3rdparty/uuid/gen_uuid.c:393-399 | runs of requests for more than one tick have no collisions, unless a reading makes the very first one collide |
| `Clock.BulkRunIsUnique` | 3rdparty/uuid/gen_uuid.c:371-399 | such a run, with fewer than 2^14 backward steps, gives out each tick at most once per sequence |
| `Clock.BlocksStartAtReadings` | 3rdparty/uuid/gen_uuid.c:371-391 | every block of a run starts within eleven ticks of the reading it goes back to |
| `Clock.SteadyRunIsUnique` | 3rdparty/uuid/gen_uuid.c:371-399 | in runs of any length, with any number of backward steps, on a clock that never goes back and gets past each block within 2^14 requests, no tick is given out twice under one sequence unless a request collides |
| `Clock.SingleRequestsCanCollide` | 3rdparty/uuid/gen_uuid.c:381-383 | from every well-formed state with a proper last reading there is a run of single requests without backward steps that collides |
| `Clock.SequenceBoundIsTight` | 3rdparty/uuid/gen_uuid.c:376 | from every well-formed state and for every `n` from 2^14 on there is a run of bulk requests with exactly `n` backward steps that repeats a tick |
| `Clock.SequenceBoundIsExact` | 3rdparty/uuid/gen_uuid.c:376 | for every `n`, all runs of bulk requests with `n` backward steps give out each tick at most once per sequence, if and only if `n` is below 2^14 and no reading makes the first request collide |
| `CText.ScanInvertsPrint` | 3rdparty/uuid/gen_uuid.c:403-406 | numbers printed through a captioned format are scanned back, whatever follows |
| `ClockFile.StateLineRoundTrip` | 3rdparty/uuid/gen_uuid.c:355-361 | scanning the printed state line gives the same sequence, seconds, microseconds and adjustment, whatever is left behind it |
| `ClockFile.StateLineFormat` | 3rdparty/uuid/gen_uuid.c:403-406 | the line consists of the fixed captions and the four numbers printed with widths 4, 16, 8 and 8 |
| `ClockFile.LongSequenceIsRefused` | 3rdparty/uuid/gen_uuid.c:355-356 | a line with more than four hexadecimal digits is not scanned |
| `ClockFile.RewrittenStartsWithLine` | 3rdparty/uuid/gen_uuid.c:401-411 | rewriting leaves the line at the start of the file even if cutting the file off fails |
| `ClockFile.RewrittenByPlace` | 3rdparty/uuid/gen_uuid.c:401-411 | the text after rewriting, place by place: the line, then nothing, or nineteen blanks, a newline and the rest of the old text |
| `ClockFile.ClockThread.Load` | 3rdparty/uuid/gen_uuid.c:350-369 | the state taken over is the file's, else the thread's own, else a new one a second old |
| `ClockFile.EntryKeepsState` | 3rdparty/uuid/gen_uuid.c:350-369 | a call starts with the state of the file, else with the thread's own, unless its time is zero; then with a second before the first reading, a random sequence and the adjustment found |
| `ClockFile.ClockThread.Poll` | 3rdparty/uuid/gen_uuid.c:371-387 | the loop accepts the reading the specification accepts and advances the statics accordingly |
| `ClockFile.ClockThread.ReserveBulk` | 3rdparty/uuid/gen_uuid.c:393-399 | the statics become those after the bulk reservation |
| `ClockFile.ClockThread.GetClock` | 3rdparty/uuid/gen_uuid.c:309-421 | statics, returned register and sequence, and the text of the state file after a call |
| `ClockFile.GenerateTime` | 3rdparty/uuid/gen_uuid.c:558-583 | the UUID produced is the stamp of the first tick the clock reserved |
| `ClockFile.OwnRunIsOneRun` | 3rdparty/uuid/gen_uuid.c:312-316 | a thread without a state file goes on from where its last call left off: its calls, over readings other than zero, form one sequential run |
| `ClockFile.NewThreadFormsOneRun` | 3rdparty/uuid/gen_uuid.c:323-332 | the calls of a new thread without a state file form one run from the state that its first call makes up |
| `ClockFile.NewThreadIsUniqueIff` | 3rdparty/uuid/gen_uuid.c:323-399 | with fewer than 2^14 backward steps the ticks of such a thread are disjoint if and only if no request collides |
| `ClockFile.SharedRunIsOneRun` | 3rdparty/uuid/gen_uuid.c:339-415 | while the file holds a state, calls of any processes form one sequential run from it, whatever their own statics |
| `ClockFile.ProcessesFormOneRun` | 3rdparty/uuid/gen_uuid.c:323-415 | fresh processes on a file that is new or cannot be scanned form one sequential run |
| `ClockFile.ProcessesNeverShareATick` | 3rdparty/uuid/gen_uuid.c:323-415 | with fewer than 2^14 backward steps, no tick is reserved twice by any processes if and only if no request collides |
| `ClockFile.ZeroReadingRepeats` | 3rdparty/uuid/gen_uuid.c:364-369 | two calls that read time zero and draw the same sequence share a tick, without collision or backward step |
| `ClockFile.NoTickIsSharedIff` | 3rdparty/uuid/gen_uuid.c:364-369 | for every set of times a clock may show: fresh processes on an unusable state file share no tick in any run without collisions and with fewer than 2^14 backward steps, if and only if time zero is not in the set |
| `ClockHalves.LockedCallsTakeTurns` | 3rdparty/uuid/gen_uuid.c:334-349 | if no two threads share a process, every schedule that the lock admits is a sequence of whole calls |
| `ClockHalves.OverlappedCallsRepeat` | 3rdparty/uuid/gen_uuid.c:339-362 | two overlapping calls of threads of one process that read the same time reserve the same tick under the same sequence |
| `ClockHalves.LockIsEnoughIff` | 3rdparty/uuid/gen_uuid.c:312-349 | under every schedule without collisions and with fewer than 2^14 backward steps the threads reserve different ticks, if and only if no two of them share a process |
| `TimeClients.ClientThread.GenerateTime` | 3rdparty/uuid/gen_uuid.c:585-626 | cache and UUID after one call: hand-out, refill from the daemon, expiry, fallback; the cache is set to 999 whatever the daemon granted |
| `TimeClients.CallServesFromCacheIff` | 3rdparty/uuid/gen_uuid.c:593-618 | a call hands out the next cached timestamp if and only if one is left and the cache is at most a second old; else it refills with 999 more, or empties the cache and falls back |
| `TimeClients.DrawnWithinASecond` | 3rdparty/uuid/gen_uuid.c:593-605 | in every run a UUID drawn from a cache is drawn no later than a second after the refill that reserved it, by the same thread |
| `TimeClients.RefillLastsIff` | 3rdparty/uuid/gen_uuid.c:593-618 | after a refill and any run, the next call of the thread is served from the cache if and only if fewer than 999 of its calls have been and the refill is at most a second ago |
| `TimeClients.HandOut` | 3rdparty/uuid/gen_uuid.c:609-618 | a hand-out keeps the history invariant: the cache stays inside its block of 1000 and hands out its next tick, never one handed out before |
| `TimeClients.Refill` | 3rdparty/uuid/gen_uuid.c:598-606 | a refill, for any grant of 1000 or more, or a fallback keeps the history invariant and adds one block |
| `TimeClients.Waste` | 3rdparty/uuid/gen_uuid.c:542-607 | a reservation whose answer gets lost keeps the history invariant, hands out nothing and leaves the cache empty |
| `TimeClients.TraceRun` | 3rdparty/uuid/gen_uuid.c:585-626 | over every run each UUID handed out is one tick of one block of the clock's own run |
| `TimeClients.NeverHandedOutTwice` | 3rdparty/uuid/gen_uuid.c:585-626 | for any threads and any interleaving of calls, starting with nothing cached, no UUID is handed out twice, given grants of at least 1000, no collision, fewer than 2^14 backward steps and 60-bit timestamps; calls of `get_clock` do not overlap, which the lock gives only between processes |
| `TimeClients.DaemonNeverHandsOutTwice` | 3rdparty/uuid/gen_uuid.c:598-618 | if the daemon serves every refill with at least 1000 timestamps and no reading makes the first request collide, the same holds with nothing else assumed about collisions |
| `TimeClients.BusyDaemonNeverHandsOutTwice` | 3rdparty/uuid/gen_uuid.c:598-618 | on a clock that gets past each block within 2^14 refills, the same holds for runs of any length and refills at any rate |
| `TimeClients.ShortGrantRepeats` | 3rdparty/uuid/gen_uuid.c:542-547 | for every grant below 1000 and every such system a run without collisions or backward steps hands out a UUID twice |
| `TimeClients.GrantIsEnoughIff` | 3rdparty/uuid/gen_uuid.c:542-547 | for every grant per refill: no run hands out a UUID twice if and only if the grant is at least 1000 |
| `TimeClients.WithoutDaemonUniqueIff` | 3rdparty/uuid/gen_uuid.c:598-625 | if no daemon answers, the UUIDs made on one node in such a run are all different if and only if no request collides; calls of `get_clock` do not overlap, which the lock gives only between processes |
| `SharedClients.Generate` | 3rdparty/uuid/gen_uuid.c:585-626 | one call with the clock in the state file: file, statics, cache and UUID afterwards are those of the step |
| `SharedClients.SharedClockIsOneClock` | 3rdparty/uuid/gen_uuid.c:339-415 | while the file holds a state, the threads of all processes hand out what they would over one clock |
| `SharedClients.HostNeverHandsOutTwice` | 3rdparty/uuid/gen_uuid.c:339-415 | from a new or unusable state file, threads of any processes never hand out a UUID twice, under the conditions of `NeverHandedOutTwice`; calls of `get_clock` do not overlap, which the lock gives only between processes |
| `SharedClients.LockedUuidsDifferIff` | 3rdparty/uuid/gen_uuid.c:312-349 | under every schedule of overlapping calls without collisions, with fewer than 2^14 backward steps and 60-bit timestamps, the UUIDs made on one node are all different, if and only if no two threads share a process |
| `Forks.SafeForksNeverRepeat` | 3rdparty/uuid/gen_uuid.c:585-626 | in runs with forks that copy only caches with nothing left no UUID is handed out twice, under the conditions of `NeverHandedOutTwice` |
| `Forks.ParentAndChildRepeat` | 3rdparty/uuid/gen_uuid.c:588-618 | after a fork that copies a cache with timestamps left, parent and child hand out the same UUID |
| `Forks.ForkIsSafeIff` | 3rdparty/uuid/gen_uuid.c:588-618 | for every fork in every such run: hand-outs stay unique whatever comes after it, if and only if the copied cache has nothing left |
| `ReadLoops.ReadAll` | 3rdparty/uuid/gen_uuid.c:423-445 | at most six reads per byte; the stored prefix of the stream, zeros behind it, the result, and exactly when the loop stops |
| `ReadLoops.ReadRandom` | 3rdparty/uuid/gen_uuid.c:180-192 | at most eighteen reads per byte; the stored prefix, the rest untouched, and exactly when the loop stops |
| `ReadLoops.PatienceIsExact` | 3rdparty/uuid/gen_uuid.c:432-439 | after the start or a successful read, `read_all` gives up at exactly the sixth read that delivers nothing, the loop of `get_random_bytes` at exactly the eighteenth |
| `UuidText.Check` | 3rdparty/uuid/parse.c:49-64 | the validation loop accepts exactly the texts of length 36 with hyphens at their four places and digits elsewhere |
| `UuidText.ScanField` | 3rdparty/uuid/parse.c:65-68 | a greedy strtoul on a valid text stops at the hyphen and yields the value of the field's bytes |
| `UuidText.ScanNodeByte` | 3rdparty/uuid/parse.c:69-75 | the two-character buffer yields the node byte |
| `UuidText.Parse` | 3rdparty/uuid/parse.c:42-79 | accepts exactly the UUID texts, stores the bytes their digits spell, leaves the output alone otherwise |
| `UuidText.PrintField` | 3rdparty/uuid/unparse.c:39-60 | one conversion of the format prints the stretch of the text form of its bytes |
| `UuidText.Unparse` | 3rdparty/uuid/unparse.c:51-61 | the formatted text is the text form character by character, in either case |
| `UuidText.ParseInvertsUnparse` | 3rdparty/uuid/unparse.c:51-71 | the text form of every UUID, in either case, is accepted and spells that UUID |
| `UuidText.UnparseInvertsParse` | 3rdparty/uuid/parse.c:49-78 | unparsing a parsed text changes nothing but the case of its digits |
| `ServiceKey.KeyIsRebuiltIff` | 3rdparty/QtZeroConf/avahiclient.cpp:162 | the key can be rebuilt from a stored service if and only if its interface index was not negative |
| `ServiceKey.KeysAreUniqueIff` | 3rdparty/QtZeroConf/avahiclient.cpp:88 | services with given names have different keys if and only if no name is another one followed by a number that leaves room for a digit or, if negative indices are admitted, by a minus sign or both |
| `ServiceKey.NoTrailingDigitIsEnough` | 3rdparty/QtZeroConf/avahiclient.cpp:140 | names that end neither in a digit nor, with negative indices, in a minus sign are such names |
| `ServiceTable.StepKeepsBooks` | 3rdparty/QtZeroConf/avahiclient.cpp:78-212 | every call and callback, whatever the keys, keeps: services have live resolvers, no browser means empty tables, every resolver is in the table or was freed once |
| `ServiceTable.StepKeepsInv` | 3rdparty/QtZeroConf/avahiclient.cpp:78-212 | as long as services found have the key of their announcement, every step also keeps: services rebuild their keys and the signals replay to exactly the services |
| `ServiceTable.AnnouncementReplaysIff` | 3rdparty/QtZeroConf/avahiclient.cpp:155-183 | announcing a new service lets the signals replay to the services if and only if its key can be rebuilt from it |
| `ServiceTable.PrintedKeyReplaysIff` | 3rdparty/QtZeroConf/avahiclient.cpp:162 | with printed keys, if and only if the interface index is not negative |
| `ServiceTable.RunKeepsBooks` | 3rdparty/QtZeroConf/avahiclient.cpp:78-212 | the books are kept over every run |
| `ServiceTable.RunKeepsInv` | 3rdparty/QtZeroConf/avahiclient.cpp:78-212 | the replay invariant over every run of such events |
| `ServiceTable.GoneWithdraws` | 3rdparty/QtZeroConf/avahiclient.cpp:102-114 | a service that goes away loses its resolver, which is freed, and is withdrawn with one signal if it was published; nothing else changes |
| `ServiceTable.NotFoundWithdraws` | 3rdparty/QtZeroConf/avahiclient.cpp:187-192 | a service that fails to resolve is withdrawn with one signal, and its resolver stays |
| `ServiceTable.TablesFollowEvents` | 3rdparty/QtZeroConf/avahiclient.cpp:78-212 | after any run: a key has a resolver if and only if it was announced and has not gone since, is published if and only if it was resolved and has neither gone nor failed since, the browser runs if and only if started and not stopped since, and the application has been told of exactly the failures |
| `ServiceTable.ReplayRemovals` | 3rdparty/QtZeroConf/avahiclient.cpp:202-206 | the withdrawals of a clean-up, in any order, replay to the services not visited |
| `ServiceTable.DestructorFreesAll` | 3rdparty/QtZeroConf/avahiclient.cpp:231-238 | after any run and the destructor both tables are empty and every resolver created was freed exactly once |
| `ServiceTable.DestructorWithdrawsAll` | 3rdparty/QtZeroConf/avahiclient.cpp:202-206 | if services found have the key of their announcement, the signals of the run replay to the services and those of the destructor withdraw them all |
| `ServiceTable.PublishedIdentityIsStable` | 3rdparty/QtZeroConf/avahiclient.cpp:142-154 | no step that leaves a service published changes its name, type, domain, host, interface or port, or drops a TXT name |
| `ServiceTable.ReplyIsTakenOverIff` | 3rdparty/QtZeroConf/avahiclient.cpp:141-186 | after a reply the published service is what the reply describes if and only if it was not published, or had the same identity and no TXT names but those of the reply |
| `ServiceTable.SecondReplyIsTakenOverIff` | 3rdparty/QtZeroConf/avahiclient.cpp:141-186 | of two replies in a row the second is taken over if and only if it differs in nothing but TXT values, further TXT names and the address; the first host, port and TXT names stay |
| `TableRefinement.StepRefines` | 3rdparty/QtZeroConf/avahiclient.cpp:78-212 | if keys tell the services apart, the keyed table and the plain one stay equal up to keys, step by step |
| `TableRefinement.RunRefines` | 3rdparty/QtZeroConf/avahiclient.cpp:78-212 | the same over every run, which is possible with the one exactly if it is with the other |
| `TableRefinement.ClashDiverges` | 3rdparty/QtZeroConf/avahiclient.cpp:98-101 | two services with one key tell the tables apart in three events |
| `TableRefinement.PrintedKeysRefine` | 3rdparty/QtZeroConf/avahiclient.cpp:88 | for unambiguous names, with or without negative indices, the table with printed keys is the plain table |
| `TableRefinement.AmbiguousNamesDiverge` | 3rdparty/QtZeroConf/avahiclient.cpp:88 | for ambiguous names some run leaves a service without a resolver |
| `AvahiBrowser.ServiceData.AddTxt` | 3rdparty/QtZeroConf/avahiclient.cpp:144-153 | the loop adds all records in order to the object's TXT map and changes nothing else |
| `AvahiBrowser.Browser.BrowserCleanUp` | 3rdparty/QtZeroConf/avahiclient.cpp:195-212 | the first loop visits the services and the second the resolvers, each once; the tables afterwards are those of the state machine for these orders |
| `AvahiBrowser.Browser.BrowseCallback` | 3rdparty/QtZeroConf/avahiclient.cpp:78-119 | each browse event is the corresponding step of the state machine |
| `AvahiBrowser.Browser.ResolveCallback` | 3rdparty/QtZeroConf/avahiclient.cpp:121-193 | each resolver event is the corresponding step, updating shared objects in place |
| `AvahiBrowser.Browser.Refresh` | 3rdparty/QtZeroConf/avahiclient.cpp:142-154 | only TXT map and address of the one object change, and the signal carries the new state |
| `AvahiBrowser.Browser.Publish` | 3rdparty/QtZeroConf/avahiclient.cpp:155-183 | a new object is filled in, entered and announced; the others are untouched |
| `AvahiBrowser.Browser.StartBrowser` | 3rdparty/QtZeroConf/avahiclient.cpp:307-326 | starting is the corresponding step, with its error cases |
| `AvahiBrowser.Browser.StopBrowser` | 3rdparty/QtZeroConf/avahiclient.cpp:328-331 | stopping is the corresponding step |
| `ResolveQueue.StepKeepsInv` | 3rdparty/QtZeroConf/QZeroConfNsdManager.java:147-169 | at most one request in flight, never idle with services waiting, every service found in exactly one place |
| `ResolveQueue.RunKeepsInv` | 3rdparty/QtZeroConf/QZeroConfNsdManager.java:117-169 | the same over every run |
| `ResolveQueue.StaysInLine` | 3rdparty/QtZeroConf/QZeroConfNsdManager.java:201-216 | a service at place `i` moves up one place per completion, whatever is found or requeued |
| `ResolveQueue.StartsInTurn` | 3rdparty/QtZeroConf/QZeroConfNsdManager.java:201-216 | it is started by exactly the completion number `i + 1` |
| `ResolveQueue.OutcomesAreCounted` | 3rdparty/QtZeroConf/QZeroConfNsdManager.java:148-168 | one report per success, one service given up per failure other than a busy resolver, and no others |
| `ResolveQueue.Manager.ProcessResolverQueue` | 3rdparty/QtZeroConf/QZeroConfNsdManager.java:206-216 | the head of the line is started if nothing is pending, else nothing changes |
| `ResolveQueue.Manager.EnqueueResolver` | 3rdparty/QtZeroConf/QZeroConfNsdManager.java:201-204 | the service joins the end of the line, which is then looked at |
| `ResolveQueue.Manager.OnServiceFound` | 3rdparty/QtZeroConf/QZeroConfNsdManager.java:118-120 | the corresponding step |
| `ResolveQueue.Manager.OnResolveFailed` | 3rdparty/QtZeroConf/QZeroConfNsdManager.java:148-155 | the corresponding step, with and without requeueing |
| `ResolveQueue.Manager.OnServiceResolved` | 3rdparty/QtZeroConf/QZeroConfNsdManager.java:158-169 | the corresponding step |
| `TxtRecords.Insert` | 3rdparty/QtZeroConf/bonjour.cpp:169-174 | a record is stored under its name up to the first '=' |
| `TxtRecords.LastDuplicateWins` | 3rdparty/QtZeroConf/bonjour.cpp:165-178 | after adding records a name has the value of the last record that bears it, else its old value |
| `TxtRecords.RecordsReplaceIff` | 3rdparty/QtZeroConf/avahiclient.cpp:144-153 | adding records leaves exactly what they say if and only if they bear every name that was there before |
| `TxtRecords.NameAndValueSplit` | 3rdparty/QtZeroConf/bonjour.cpp:170-174 | a record made of a name without '=' and a value splits back into them |
| `TxtRecords.AsciiIffOneBytePerUnit` | 3rdparty/QtZeroConf/bonjour.cpp:321-322 | a text has as many UTF-8 bytes as code units if and only if it is ASCII |
| `TxtRecords.UnitsAreUtf16` | 3rdparty/QtZeroConf/bonjour.cpp:321 | the size of a text is the length of its UTF-16 form, numbers and surrogate pairs spelled out |
| `TxtRecords.Utf8CharSpells` | 3rdparty/QtZeroConf/bonjour.cpp:322 | the bytes of every character spell its number in the shortest form |
| `TxtRecords.TxtBuffer.AddName` | 3rdparty/QtZeroConf/bonjour.cpp:319-323 | the buffer is the frames of the texts added so far |
| `TxtRecords.TxtBuffer.AddPair` | 3rdparty/QtZeroConf/bonjour.cpp:325-330 | a pair is added as name, '=' and value |
| `TxtRecords.FramesAreRead` | 3rdparty/QtZeroConf/bonjour.cpp:164-178 | frames of fewer than 65536 bytes are read back as the bytes of the texts if and only if every text can be framed |
| `TxtRecords.FrameIsCut` | 3rdparty/QtZeroConf/bonjour.cpp:164-170 | whatever the text, the record read has as many bytes as the text has code units modulo 256 |
| `TxtRecords.PublishedIsPrefix` | 3rdparty/QtZeroConf/bonjour.cpp:286 | what is published is the beginning of the buffer, less than 65536 bytes, and a multiple of 65536 is lost |
| `TxtRecords.UnframeCounts` | 3rdparty/QtZeroConf/bonjour.cpp:165-178 | the records found fill the beginning of the buffer and take as many bytes as announced, modulo 65536 |
| `TxtRecords.PublishedIsReadIff` | 3rdparty/QtZeroConf/bonjour.cpp:280-287 | what is published is read back record by record if and only if all texts are ASCII of at most 255 characters and the buffer is below 65536 bytes |
| `TxtRecords.ReadTxt` | 3rdparty/QtZeroConf/bonjour.cpp:164-178 | the loop adds exactly the records found, in order, or would run over the end of the buffer |
| `TxtRecords.PairSplitsIff` | 3rdparty/QtZeroConf/bonjour.cpp:325-330 | the record of a name and a value splits back into their bytes if and only if the name has no '=' |
| `TxtRecords.PublishedPairsArrive` | 3rdparty/QtZeroConf/bonjour.cpp:164-178 | publishing pairs that can be framed and have no '=' in their names, and reading them, yields the map from names to the values last set |
| `ArgumentMessage.DecodeInvertsEncode` | src/singleton/singleapplication.cpp:184 | Base64 with padding is undone for every byte string |
| `ArgumentMessage.EncodeShape` | src/singleton/singleapplication.cpp:225 | every encoding is a whole number of groups of four: symbols for the bits of the bytes filled up with zeros, and padding at exactly the last (3 - n mod 3) mod 3 places |
| `ArgumentMessage.AlphabetIsStandard` | src/singleton/singleapplication.cpp:225 | the symbols are those of table 1 of RFC 4648 |
| `ArgumentMessage.EmitByPlace` | src/singleton/singleapplication.cpp:184 | any text decodes to a byte for every eight bits, place by place, and left-over bits are dropped |
| `ArgumentMessage.SimplifiedDecodesTheSame` | src/singleton/singleapplication.cpp:184 | simplifying a token never changes what it decodes to |
| `ArgumentMessage.SplitJoined` | src/singleton/singleapplication.cpp:183 | the joined tokens are split where they were joined |
| `ArgumentMessage.Deliver` | src/singleton/singleapplication.cpp:220-233 | the message is the encodings joined by blanks; without arguments nothing is sent |
| `ArgumentMessage.ReadData` | src/singleton/singleapplication.cpp:174-193 | the application's name, then every non-empty argument that the tokens carry |
| `ArgumentMessage.MessageCarriesArguments` | src/singleton/singleapplication.cpp:181-190 | the receiver gets the non-empty arguments in order |
| `ArgumentMessage.ArgumentsArriveIff` | src/singleton/singleapplication.cpp:223-231 | all arguments arrive if and only if none is empty |

## Left out

- GetClock: the overflow of the C `int` adjustment for counts close to 2^31 and a state file on descriptor 0, which is locked but never written, are not modelled.
- ProcessesFormOneRun: readings of exactly (0, 0) are excluded, because with them the claim is false (`ZeroReadingRepeats`), and so are times beyond 2^60 seconds.
- ProcessesNeverShareATick: the same readings are excluded, for the same reason.
- NeverHandedOutTwice: calls of `get_clock` by threads of one process are taken not to overlap, because otherwise the claim is false (`OverlappedCallsRepeat`); timestamps beyond 2^60 ticks, where the increment spills into the version (`NextIsPlusOne`), are excluded.
- HostNeverHandsOutTwice: calls of `get_clock` are taken not to overlap, as above; `LockedUuidsDifferIff` is about those that do.
- Generate: the fallback after a lost answer is a call of its own.
- WithoutDaemonUniqueIff: calls of `get_clock` are taken not to overlap, as above; the build without thread-local storage, which asks the daemon for one UUID at a time, is not modelled.
- CompareIsLexicographic: the magnitude that memcmp returns for different nodes is not modelled, only its sign.
- BrowseCallback: creating a resolver always succeeds, and slots connected to the signals do not call back into the browser.
- ResolveCallback: callbacks come only from resolvers that have not been freed, as the Avahi library guarantees.
- PublishedIsReadIff: texts are sequences of Unicode scalar values; QStrings with unpaired surrogates, which the conversion to UTF-8 replaces, are not modelled.
- PublishedPairsArrive: goes one way, because a publisher that overruns the buffer or repeats a name can still convey the same map by accident.
- BrowserCleanUp: the visiting order of QMap is not fixed to ascending keys; the contract holds for the order used, whatever it is.
- ReadData: a message arrives in one piece, and the local 8-bit encoding of arguments is the identity on byte strings.
- ReadTxt: where the C++ loop would read past the buffer the model stops with None.
- Sockets, processes, file opening, locking and the daemon program itself: operating-system calls, replaced by inputs.
- The mixing of random bytes, `get_node_id`, random UUIDs and the Windows generator: nothing to prove about their output.
- `clear.c`, `copy.c`, `isnull.c`: one-line loops.
- Service publication in the Avahi and Bonjour back ends, resolver lifetime in Bonjour, and the Avahi core variant: wrappers over libraries that are not part of this model.
- JNI glue of the Android back end and the static queue being shared by several managers: one manager is modelled.
- Single-instance election and message routing: decided by the socket layer.
- Logging, command-line parsing, file helpers and translations: no logic of this kind.
