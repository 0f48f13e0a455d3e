# Flathead: verified algorithmic cores

Flathead is a small ECMA-262 interpreter written in C. This project models the self-contained algorithms under
its evaluator and proves what they keep, over all inputs and over whole runs. Code that updates structures in
place is modelled by classes, arrays and loops; each such method is proved against a specification function, and
the laws are proved about that function. `dafny verify dfyconfig.toml` checks everything.

## What is modelled

- **The hash table behind every object** (`ext/uthash.h`): `UtHashTypes`, `ExpansionPolicy`, `UtHashChains`,
  `UtHash`, `UtHashSort`, `UtHashRuns`. Every element is in two linked structures at once. The table refines an
  association list in insertion order over every run of finds, adds, deletes and sorts; bucket doubling, its chain length
  and load factor bounds, the in-place list sort and the library's own integrity check are included. The hash is an
  arbitrary fixed function.
- **The mark-sweep collector and slot allocator** (`src/gc.c`): `GcModel`, `GcMark`, `GcRuns`, `Gc`. The recursive
  marker on an arbitrary cyclic graph, the sweep that stops at the first vacant slot, first-fit allocation, and safety
  over whole runs of allocations, writes, root changes and guarded explicit collections.
- **Calendar arithmetic** (`src/runtime/lib/Date.c`): `Calendar`, `DateText`, `DateSetters`. The year search, the
  three encodings of the month table, composing and decomposing, two printers with their parsers, the setUTC methods.
- **Sequences and strings**: `StableSorting`, `RunMerging` and `ArraySort` (the ping-pong merge sort),
  `StringSearch` and `SplitJoin` (indexOf, split, join), `StrReplace` (two-pass replacement in a buffer),
  `NodeCursor` (the destructive cursor over syntax tree lists), `Props` (properties and scope-chain assignment).

## Where the code and its documentation differ

The model follows the code. These laws fail for some inputs; for each, a concrete input is given and the exact
condition under which the law holds is proved.

- `make_day` reduces the month before it carries into the year, so it is the MakeDay of section 15.9.1.12 of
  ECMA-262 (edition 5.1) exactly for months strictly between -12 and 12 (`MakeDayStandardIff`; month 12 of 2000,
  `MonthTwelve`).
- The one-pass matcher of `indexOf` and `split` falls back to at most one matched character. It is right for every
  haystack exactly when the needle repeats, to its end, the block before its first character first comes back
  (`IndexOfRightIff`, `SafeIffRepeats`, `SplitRightIff`; "aab" is not found in "aaab", `MissedNeedle`). Joining what
  `split` returns gives the string back all the same (`SplitThenJoin`).
- The empty string splits into no pieces; section 15.5.4.14 asks for one empty piece. A separator that is safe for
  the matcher is right about exactly the non-empty strings (`EmptyStringSplits`).
- A sweep returns at the first vacant slot. A collection keeps every reachable slot exactly when none that is unmarked
  and below the first vacant slot is reachable only through stale marks (`KeepsReachableIff`). An explicit `gc.run()`
  keeps the invariant of whole runs exactly when no reachable slot lies behind a vacant one (`ExplicitKeepsInvIff`), and
  under that guard it is a step of the whole-run theorems. A run from a new heap arrives behind a first `gc.run()`,
  whose return value has taken a slot, at an arena with a vacant slot in front of a reachable one (`HoleIsReached`); a
  second `gc.run()` leaves a stale mark there, and a third one vacates a reachable slot (`ExplicitRunsLoseLiveSlot`).
- The remembered prototypes `fh->object_proto`, `array_proto` and `function_proto` are not roots. An allocation keeps the
  invariant exactly when what the new value points at, and what is reached from there, is still in use once it has its
  slot (`AllocKeepsInvIff`); reachable pointers are (`ReachablePointersKept`), and a prototype that is only remembered
  may have been vacated for the very allocation (`ForgottenPrototype`).
- The ISO and UTC texts of a time read back exactly for years 1000 to 9999 (`IsoRoundTripIff`, `UtcRoundTripIff`; the
  first instant of 999, `ShortYear`). An accepted text prints again as it was exactly when it names an existing date
  from the year 1000 on, and the right week day (`IsoReprintsIff`, `UtcReprintsIff`; 31 February 2001 is accepted and
  prints as 3 March, `NoSuchDayMoves`).
- `Array.prototype.sort` takes ties from the right run, so equal elements come out in exactly the reverse order. It is
  stable exactly when every class of ties reads the same backwards, on different elements exactly when no two tie
  (`StableIff`, `StableIffNoTies`; (7,1) and (7,2) sorted by their first number, `TiesSwap`).
- `time_clip` gives 0 where section 15.9.1.14 gives NaN, and a missing required argument counts as 0. A setter does
  what it is asked exactly when the result exists and is in range and its first part is supplied or was 0 (`SetterIff`;
  setUTCFullYear(300000) stores the epoch, `FarYearStoresEpoch`).
- `eval_each` keeps its place in the list itself: a child whose evaluation comes to the same list again ends the loop.
  All children are evaluated exactly when no child but the last does so (`EvalEachAllIff`; of two children the second
  is lost, `SecondChildLost`).

Two limits are out of reach of the code's own callers. `node_rewind` gives up at a node without a child (`RewoundIff`),
but the grammar builds no such node in a list of several; only the empty argument list is one (`src/grammar.y:1104`), and
`build_args` returns before it reads it. `indexOf` of an empty needle answers a negative start with that start.

## Model

| member | source | states |
|---|---|---|
| `UtHash.Hash.constructor` | ext/uthash.h:94-98 | a null head is a valid, empty hash |
| `UtHash.Hash.Find` | ext/uthash.h:94-105 | returns the stored element with the key, or null exactly when no element has it |
| `UtHash.Hash.Add` | ext/uthash.h:173-196 | an absent key's element becomes the last in insertion order; both linked structures, all counts and the policy bounds stay valid, doubling included |
| `UtHash.Hash.Start` | ext/uthash.h:179-182 | the same on an empty hash, whose history starts with the new table |
| `UtHash.Hash.Append` | ext/uthash.h:183-195 | the same on a hash that is not empty: its history stays, or has one doubling more |
| `UtHash.Hash.Delete` | ext/uthash.h:215-248 | exactly the deleted element leaves the insertion order, the others keep theirs; everything stays valid |
| `UtHash.Hash.Shrink` | ext/uthash.h:225-246 | the same for an element that is not alone; the history of the table stays |
| `UtHash.HistoryGrows` | ext/uthash.h:706-711 | the counter of ineffective doublings in a row and the inhibition follow the history of the table |
| `UtHash.AddToBkt` | ext/uthash.h:611-623 | the element is in the chain of its bucket and the table, doubled or not, is again consistent and bounded; it doubles exactly when the bucket reaches 10 times its multiplier plus one and expansion is not inhibited, and it inhibits expansion at the second doubling in a row that leaves more than half the items beyond the ideal position |
| `UtHash.AddLast` | ext/uthash.h:183-192 | adding behind the tail keeps head, list, table and chains in agreement |
| `UtHash.AddFirst` | ext/uthash.h:179-192 | the first element makes a table that holds exactly it |
| `UtHash.MakeTable` | ext/uthash.h:141-158 | a new table has 32 empty buckets and holds nothing |
| `UtHash.LinkLast` | ext/uthash.h:176-186 | the element follows the old tail, links both ways, and is the new tail |
| `UtHash.Register` | ext/uthash.h:188-192 | counting, hashing and bucketing one more element keeps the table part consistent |
| `UtHash.UnlinkOrder` | ext/uthash.h:226-242 | the bridged list is again doubly linked, with head and tail right, and the table is untouched |
| `UtHash.Bridged` | ext/uthash.h:232-242 | if every link jumps over one position, the rest is a doubly linked list in the same order |
| `UtHash.Unregister` | ext/uthash.h:243-245 | the element leaves exactly its chain and the counts; the policy bounds stay |
| `UtHash.DeleteOne` | ext/uthash.h:225-246 | deleting an element that is not alone keeps list and table in agreement |
| `UtHashChains.AddToBucket` | ext/uthash.h:612-618 | the element is the new head of its chain; counts follow |
| `UtHashChains.LinkAtHead` | ext/uthash.h:615-618 | the element is linked in front of its chain; no other forward link changes |
| `UtHashChains.DelInBucket` | ext/uthash.h:626-636 | the element leaves its chain, the other chains are as before; counts follow |
| `UtHashChains.Unlink` | ext/uthash.h:628-635 | the chain without the element is again doubly linked from the new head |
| `UtHashChains.ChainBridged` | ext/uthash.h:628-635 | if every link jumps over one position, the rest is a doubly linked chain in the same order |
| `UtHashChains.FindInBucket` | ext/uthash.h:598-609 | the element of the chain with the key, or null exactly when the chain has none |
| `UtHashChains.MoveHandle` | ext/uthash.h:686-698 | one moved element: its new chain, count, multiplier and the excess total are right |
| `UtHashChains.MoveChain` | ext/uthash.h:684-700 | an old chain is spread over the new buckets although its links are overwritten on the way |
| `UtHashChains.MoveBucket` | ext/uthash.h:682-701 | one more old bucket is redistributed, and those not reached yet are still walkable |
| `UtHashChains.Redistribute` | ext/uthash.h:682-701 | every element of the old table is in exactly the new chain its hash selects; no item is lost |
| `UtHashChains.ExpandBuckets` | ext/uthash.h:667-713 | twice the buckets hold the same elements; ideal length, multipliers, excess and inhibition are as the policy says |
| `ExpansionPolicy.IdealByShift` | ext/uthash.h:678-680 | shift and mask compute the ceiling of items over buckets |
| `ExpansionPolicy.IdealIsCeiling` | ext/uthash.h:649-664 | the ideal length is the least one at which the chains can hold all items |
| `ExpansionPolicy.WeightPaidFor` | ext/uthash.h:689-693 | after a doubling each multiplier is paid for by ideal-length many items of its bucket |
| `ExpansionPolicy.WeightBounded` | ext/uthash.h:689-693 | after a doubling the multipliers sum to at most the number of buckets |
| `ExpansionPolicy.DoublingBounds` | ext/uthash.h:667-713 | a doubling of a table with at most 20 items a bucket leaves a bounded one, ideal length at most 10 |
| `ExpansionPolicy.AddKeepsBounds` | ext/uthash.h:619-622 | an addition that does not trigger a doubling keeps the bounds |
| `ExpansionPolicy.DeleteKeepsBounds` | ext/uthash.h:626-627 | a deletion keeps the bounds |
| `ExpansionPolicy.LoadFactor` | ext/uthash.h:885-897 | a bounded table holds at most 19 items a bucket |
| `UtHashRuns.Run` | ext/uthash.h:94-805 | every run of finds, adds, deletes and sorts on an empty hash gives the answers and the ordered entries of an association list |
| `UtHashRuns.Step` | ext/uthash.h:94-805 | one operation does to the hash what it does to the association list |
| `UtHashRuns.SortedContents` | ext/uthash.h:720-805 | the entries of the sorted elements are the insertion sort of the entries |
| `UtHashRuns.ReachableBounds` | ext/uthash.h:881-899 | while expansion is not inhibited: bucket count at most 10 times its multiplier plus one, ideal length at most 10, items at most 19 a bucket |
| `UtHashRuns.InhibitedIff` | ext/uthash.h:912-924 | in every reachable hash expansion is inhibited if and only if the last two doublings left more than half the items beyond the ideal position, and no two in a row did before; n doublings make 32 times 2^n buckets |
| `UtHashRuns.Fsck` | ext/uthash.h:278-328 | on walkable links the check complains if and only if a backward link, a bucket count or an item count is wrong |
| `UtHashRuns.CheckBucket` | ext/uthash.h:287-303 | one bucket passes if and only if it is a doubly linked chain of the recorded length |
| `UtHashRuns.CheckBuckets` | ext/uthash.h:286-308 | all buckets pass if and only if each does and the lengths sum to the number of items |
| `UtHashRuns.CheckOrder` | ext/uthash.h:309-326 | the list passes if and only if it is doubly linked and as long as the number of items |
| `UtHashRuns.ValidPassesFsck` | ext/uthash.h:278-328 | whatever the operations keep valid satisfies everything the library checks |
| `UtHashRuns.Iterate` | ext/uthash.h:872-874 | iteration visits every element once, in insertion order |
| `UtHashSort.Sort` | ext/uthash.h:720-805 | on any list and total preorder: insertion order becomes sorted, a stable permutation; prev, head, tail and the table are right again |
| `UtHashSort.SortSome` | ext/uthash.h:725-804 | the same on a list that is not empty |
| `UtHashSort.SortList` | ext/uthash.h:729-802 | the doubling passes end, and end sorted and stable |
| `UtHashSort.SortPass` | ext/uthash.h:730-797 | one pass merges neighbouring runs in place; it made at most one merge exactly when two runs cover the list |
| `UtHashSort.SortPassOnTable` | ext/uthash.h:730-797 | relinking the list leaves buckets, chains and counts as they were |
| `UtHashSort.MergeRuns` | ext/uthash.h:745-791 | two runs known only by length and end of list are merged behind the finished part, ties to the left |
| `UtHashSort.MergeOne` | ext/uthash.h:746-789 | one round: the next element of the merge goes out behind the finished part, all parts stay walkable |
| `UtHashSort.MergeNext` | ext/uthash.h:735-791 | the next two runs of a pass are measured and merged, and the list goes on behind them |
| `UtHashSort.PickNext` | ext/uthash.h:747-778 | the element taken is the next one of the merge, and both remaining parts stay walkable |
| `UtHashSort.Emit` | ext/uthash.h:779-789 | the finished part grows by the element, linked both ways; the parts still waiting keep their links |
| `UtHashSort.Terminate` | ext/uthash.h:793-795 | clearing the last stale link makes the finished part a doubly linked list |
| `UtHashSort.MeasureRun` | ext/uthash.h:736-744 | the left run is the first insize elements, or all that are left |
| `RunMerging.PassProgress` | ext/uthash.h:734-801 | a pass doubles the length of the sorted runs and keeps contents and the order of ties |
| `RunMerging.MergedClass` | ext/uthash.h:761-778 | a merge keeps ties in order: those of the left run come first |
| `StableSorting.StableSortUnique` | ext/uthash.h:716-720 | a stable sort has exactly one possible result |
| `StableSorting.InsertionSortStable` | ext/uthash.h:716-720 | insertion sort, the reference of the run theorem, is that result |
| `GcMark.Mark` | src/gc.c:189-228 | terminates on any graph; marks the value and what is reached from it through unmarked slots, nothing else, and leaves no new mark with an unmarked successor |
| `GcMark.MarkProps` | src/gc.c:219-227 | the loop over properties marks through exactly the non-circular ones |
| `GcMark.MarkChild` | src/gc.c:199-217 | marking one successor in the middle of a walk extends the walk, and unmarks nothing |
| `GcMark.WalkIsMarkPhase` | src/gc.c:286-295 | what a finished walk marked is exactly the reachable set |
| `GcMark.NextRoot` | src/gc.c:288-295 | marking from one root after others marks what is reached from all of them |
| `GcModel.MarkedIsReached` | src/gc.c:189-228 | marks that grew by reached slots only and are closed where they grew are everything reached |
| `GcModel.EdgesAre` | src/gc.c:195-227 | field by field, what a value points at: its prototype, the five references of an object, and each property that is not circular |
| `Gc.RootsExactly` | src/gc.c:286-295 | the roots are the global object and the scopes on the callstack, no more and no less |
| `GcModel.FirstFit` | src/gc.c:109-133 | the first vacant slot is handed out without a collection; a full arena is collected, once |
| `Gc.Heap.constructor` | src/gc.c:82-92 | a new arena is vacant and valid |
| `GcRuns.NothingLive` | src/gc.c:82-92 | the state of a new arena satisfies the invariant from which runs start |
| `Gc.Heap.Sweep` | src/gc.c:255-273 | below the first vacant slot unmarked slots become vacant and marks are cleared; from there on nothing changes; the count of used slots stays right |
| `GcModel.SweptNext` | src/gc.c:260-272 | sweeping one more used slot vacates it or clears its mark, and counts |
| `Gc.Heap.MarkRoots` | src/gc.c:286-295 | the roots' loop performs exactly the mark phase of all roots |
| `Gc.Heap.Gc` | src/gc.c:275-308 | one collection is mark phase and sweep, and keeps the heap valid |
| `Gc.Heap.GcRun` | src/runtime/lib/gc.c:18-23 | gc.run() is one collection, the explicit step of a run, and then the allocation step of its return value |
| `Gc.Heap.Malloc` | src/gc.c:109-133 | first fit; one collection exactly when nothing is vacant; out of memory only after it |
| `Gc.Heap.NewObject` | src/flathead.c:96-113 | creating an object is the allocation step of the whole-run theorems |
| `GcRuns.CollectExactly` | src/gc.c:255-308 | per slot and whatever is marked before: what a collection vacates, keeps and leaves marked |
| `GcRuns.MarksClearedIff` | src/gc.c:261 | no mark is left if and only if nothing at or past the first vacant slot is marked or reached |
| `GcRuns.CollectCompleteIff` | src/gc.c:261 | exactly the reachable slots stay in use if and only if, before the first vacant slot, exactly they end up marked and, from there on, exactly they were in use |
| `GcRuns.KeepsReachableIff` | src/gc.c:189-273 | whatever is marked before: no reachable used slot is vacated if and only if every reachable unmarked slot below the first vacant one is reached without passing a mark |
| `GcRuns.ExplicitKeepsInvIff` | src/runtime/lib/gc.c:18-23 | an explicit collection keeps the run invariant if and only if no reachable slot lies behind a vacant one |
| `GcRuns.ExplicitCollects` | src/runtime/lib/gc.c:18-23 | under that guard it vacates exactly the unreachable slots before the first vacant one and changes no slot |
| `GcRuns.TriggeredCollection` | src/gc.c:119-128 | a collection triggered by a full arena vacates exactly the unreachable slots and leaves no mark |
| `GcRuns.AllocationSafe` | src/gc.c:109-133 | fails exactly when every slot is reachable; else hands out an unreachable slot and vacates no reachable one |
| `GcRuns.AllocKeepsInvIff` | src/gc.c:109-133 | an allocation keeps the run invariant if and only if what its pointers reach is still in use once the slot is taken |
| `GcRuns.LiveAfterAlloc` | src/gc.c:109-133 | what is live afterwards: what was reachable, the new slot, and what its pointers reach |
| `GcRuns.ReachablePointersKept` | src/gc.c:119-128 | pointers that are reachable before an allocation are in use after it |
| `GcRuns.ForgottenPrototype` | src/gc.c:286-295 | a prototype that only the interpreter remembers is vacated by the collection that makes room for its next object |
| `GcRuns.InvKept` | src/gc.c:109-133 | every step, a guarded explicit collection included, keeps: marks clear, count right, everything live in use |
| `GcRuns.RunKeepsInv` | src/gc.c:109-308 | the invariant holds throughout every run |
| `GcRuns.RunSafe` | src/gc.c:109-308 | in every run nothing reachable is vacated, or handed out or altered by an allocation; triggered and guarded explicit collections vacate exactly what they should |
| `GcRuns.ExplicitRunsLoseLiveSlot` | src/runtime/lib/gc.c:18-23 | two more calls of gc.run(), each a collection and an allocation, vacate a reachable slot |
| `GcRuns.HoleIsReached` | src/gc.c:109-308 | a run from a new heap arrives behind a first gc.run() at an arena in which the next one is outside the guard |
| `GcRuns.SecondRunLeavesMark` | src/gc.c:261 | the early return of the second call leaves a mark behind the hole, and its return value takes the slot before it |
| `GcRuns.LinkedBehindMark` | src/gc.c:109-125 | a new object takes the hole and is linked from the marked slot |
| `GcRuns.ThirdRunLosesSlot` | src/gc.c:193 | the third call stops at the stale mark and vacates the slot behind it, which is reachable |
| `GcRuns.CircularSkipped` | src/props.c:124 | with right flags, skipping circular properties changes nothing that is reached |
| `Calendar.YearFromTime` | src/runtime/lib/Date.c:178-203 | terminates for every integer and returns the year that contains the time |
| `Calendar.Year` | src/runtime/lib/Date.c:178-203 | the year found contains the time |
| `Calendar.InYearUnique` | src/runtime/lib/Date.c:155-159 | only one year contains a time |
| `Calendar.Bracket` | src/runtime/lib/Date.c:181-189 | the initial 365 and 366 day bracket, swapped before 1970, encloses the year |
| `Calendar.YearLength` | src/runtime/lib/Date.c:138-153 | consecutive year starts differ by the length of the year |
| `Calendar.LeapYearRule` | src/runtime/lib/Date.c:138-146 | a year has 366 days if and only if it is divisible by 4 and, if by 100, then by 400 |
| `Calendar.FourCenturies` | src/runtime/lib/Date.c:148-153 | year starts advance by 146097 days in any 400 years; 1970 starts on day 0 |
| `Calendar.LeapDayOf2000` | src/runtime/lib/Date.c:138-323 | 951782400000 is 29 February 2000; 15:30 on 28 June 2000 is 962206200000 |
| `Calendar.DayFromYearMonotone` | src/runtime/lib/Date.c:148-153 | year starts grow by 365 to 366 days a year |
| `Calendar.MonthsAgree` | src/runtime/lib/Date.c:163-262 | the three month encodings agree on every time; the date lies within its month |
| `Calendar.TablesAgree` | src/runtime/lib/Date.c:211-262 | cascade and thirtieths agree with the month lengths on every day of a year |
| `Calendar.DayFromMonthIsStart` | src/runtime/lib/Date.c:163-176 | the month-start formula is the sum of the month lengths before |
| `Calendar.FModIsModulo` | src/runtime/lib/Date.c:264-298 | fmod and its correction give the mathematical modulus, negative times included |
| `Calendar.ClockFields` | src/runtime/lib/Date.c:264-310 | hour, minute, second and millisecond are in range and recompose the time within the day |
| `Calendar.Recompose` | src/runtime/lib/Date.c:306-329 | recomposing the seven parts of any time gives it back |
| `Calendar.Decompose` | src/runtime/lib/Date.c:123-329 | decomposing the time of any existing date and time gives its seven fields |
| `Calendar.FieldsAreCivil` | src/runtime/lib/Date.c:178-298 | the parts of every time name an existing date and time |
| `Calendar.StandardNamesItsMonth` | src/runtime/lib/Date.c:312-323 | the standard's MakeDay, defined independently, is the first of month m mod 12 in year y + floor(m/12), moved by the date |
| `Calendar.MakeDayExactly` | src/runtime/lib/Date.c:312-323 | what make_day computes for every month |
| `Calendar.MakeDayStandardIff` | src/runtime/lib/Date.c:315-317 | make_day is the standard's MakeDay if and only if the month lies strictly between -12 and 12 |
| `Calendar.MonthTwelve` | src/runtime/lib/Date.c:315-317 | a month of 12 stays in the year |
| `DateText.VerifyFormat` | src/runtime/lib/Date.c:432-456 | accepts exactly the texts of the format's length in which every d stands for a digit, every a for a letter and any other character for itself |
| `DateText.FindMonth` | src/runtime/lib/Date.c:547-552 | the index of the month name, or 12 |
| `DateText.MonthsInOrder` | src/runtime/lib/Date.c:43-59 | the twelve names, Jan to Dec, in order |
| `DateText.DaysInOrder` | src/runtime/lib/Date.c:30-41 | the seven names, Sun to Sat, in order |
| `DateText.DateParseIso` | src/runtime/lib/Date.c:463-486 | the loop-based parser is the specification parser of the round trip |
| `DateText.DateParseUtc` | src/runtime/lib/Date.c:529-559 | likewise for the UTC form |
| `DateText.YearText` | src/runtime/lib/Date.c:406-425 | a year prints as four digits exactly for 1000 to 9999 |
| `DateText.IsoRoundTripIff` | src/runtime/lib/Date.c:406-486 | parsing the ISO text gives the time back if and only if the year is 1000 to 9999; otherwise it is rejected |
| `DateText.UtcRoundTripIff` | src/runtime/lib/Date.c:384-404 | parsing the UTC text gives the time rounded down to the second under the same condition |
| `DateText.January` | src/runtime/lib/Date.c:384-559 | "Tue, 03 Jan 2006 21:44:38 GMT" and 1136324678000 are each other's text and time |
| `DateText.February` | src/runtime/lib/Date.c:384-559 | the same for the third of February, its own literal text and time |
| `DateText.March` | src/runtime/lib/Date.c:384-559 | the same for the third of March, its own literal text and time |
| `DateText.April` | src/runtime/lib/Date.c:384-559 | the same for the third of April, its own literal text and time |
| `DateText.May` | src/runtime/lib/Date.c:384-559 | the same for the third of May, its own literal text and time |
| `DateText.June` | src/runtime/lib/Date.c:384-559 | the same for the third of June, its own literal text and time |
| `DateText.July` | src/runtime/lib/Date.c:384-559 | the same for the third of July, its own literal text and time |
| `DateText.August` | src/runtime/lib/Date.c:384-559 | the same for the third of August, its own literal text and time |
| `DateText.September` | src/runtime/lib/Date.c:384-559 | the same for the third of September, its own literal text and time |
| `DateText.October` | src/runtime/lib/Date.c:384-559 | the same for the third of October, its own literal text and time |
| `DateText.November` | src/runtime/lib/Date.c:384-559 | the same for the third of November, its own literal text and time |
| `DateText.December` | src/runtime/lib/Date.c:384-559 | the same for the third of December, its own literal text and time |
| `DateText.OnTheThird` | src/runtime/lib/Date.c:384-559 | any month's third of 2006 at 21:44:38 prints as week day, month name and the literal rest, and that text parses as its time |
| `DateText.IsoOfJuly` | src/runtime/lib/Date.c:406-486 | the same for one literal ISO text with milliseconds |
| `DateText.ShortYear` | src/runtime/lib/Date.c:384-486 | neither text of the first instant of 999 is accepted |
| `DateText.IsoReprintsIff` | src/runtime/lib/Date.c:406-486 | an accepted ISO text prints again as it was if and only if its fields name an existing date and time and its year is at least 1000 |
| `DateText.UtcReprintsIff` | src/runtime/lib/Date.c:384-559 | an accepted UTC text prints again as it was if and only if, besides, its week day is the right one |
| `DateText.NoSuchDayMoves` | src/runtime/lib/Date.c:463-486 | 31 February 2001 is accepted and prints as 3 March |
| `DateText.WeekDays` | src/runtime/lib/Date.c:129-136 | the week day is in range, moves on by one each day, and is Thursday on the day of the epoch |
| `DateText.ParseStrRoundTrips` | src/runtime/lib/Date.c:561-571 | both round trips hold through the ordered attempts, whatever the local-time parser does |
| `DateText.ParseStrLast` | src/runtime/lib/Date.c:561-571 | a text of neither form goes to the local-time parser |
| `DateSetters.MakeDateFromArgs` | src/runtime/lib/Date.c:602-623 | the rebuilt time takes the window's arguments where given and the old parts elsewhere |
| `DateSetters.DateObject.Set` | src/runtime/lib/Date.c:944-1005 | each setUTC method by name: the stored time is the clipped one rebuilt from exactly its own parts, given or kept, and the parts outside its window as they were |
| `DateSetters.NamedWindows` | src/runtime/lib/Date.c:944-1005 | which of the seven parts each of the seven methods takes from which argument |
| `DateSetters.PartsReadBack` | src/runtime/lib/Date.c:602-623 | seven parts in range read back one by one |
| `DateSetters.RebuildReadsBackIff` | src/runtime/lib/Date.c:602-623 | seven parts read back if and only if they name an existing date and time within the clip bound |
| `DateSetters.SetterIff` | src/runtime/lib/Date.c:944-1005 | for any arguments: supplied parts read back and the others are unchanged, if and only if the result exists and is in range and the first part of the window is supplied or was 0 |
| `DateSetters.SetUTCFullYearReads` | src/runtime/lib/Date.c:953-960 | in range, year, month and date read back as the arguments, or as before; every other part stays |
| `DateSetters.SetUTCMonthReads` | src/runtime/lib/Date.c:989-996 | in range, month and date read back as the arguments, or as before; every other part stays |
| `DateSetters.SetUTCDateReads` | src/runtime/lib/Date.c:944-951 | in range, the date read back as the arguments, or as before; every other part stays |
| `DateSetters.SetUTCHoursReads` | src/runtime/lib/Date.c:962-969 | in range, hour, minute, second and millisecond read back as the arguments, or as before; every other part stays |
| `DateSetters.SetUTCMinutesReads` | src/runtime/lib/Date.c:980-987 | in range, minute, second and millisecond read back as the arguments, or as before; every other part stays |
| `DateSetters.SetUTCSecondsReads` | src/runtime/lib/Date.c:998-1005 | in range, second and millisecond read back as the arguments, or as before; every other part stays |
| `DateSetters.SetUTCMillisecondsReads` | src/runtime/lib/Date.c:971-978 | in range, the millisecond read back as the arguments, or as before; every other part stays |
| `DateSetters.ThirtyOnEpoch` | src/runtime/lib/Date.c:944-1005 | setUTCMinutes(30) on the epoch stores 1800000, setUTCSeconds(30) stores 30000 |
| `DateSetters.ZeroedNeverReadsBack` | src/runtime/lib/Date.c:612-613 | a part set to 0 for want of an argument never reads back as what it was, clipped or not |
| `DateSetters.FarYearStoresEpoch` | src/runtime/lib/Date.c:115-121 | setUTCFullYear(300000) on the epoch stores 0 |
| `ArraySort.MergeSort` | src/runtime/lib/Array.c:49-58 | sorts in place: sorted, a permutation, ties in exactly reverse order, nothing past the length touched |
| `ArraySort.Recur` | src/runtime/lib/Array.c:37-47 | given equal windows in both buffers, the first buffer's window ends sorted and nothing outside either window changes |
| `ArraySort.Merge` | src/runtime/lib/Array.c:25-35 | the window of the output holds the merge with ties to the right; nothing outside it changes |
| `ArraySort.MergeBoth` | src/runtime/lib/Array.c:29-31 | until one run is used up, the output holds the beginning of their merge |
| `ArraySort.CopyRun` | src/runtime/lib/Array.c:33-34 | the rest of a run is copied to its place and nowhere else |
| `ArraySort.MergeSortedReversesTies` | src/runtime/lib/Array.c:25-58 | the result is the sort that reverses every class of ties |
| `StableSorting.ReversingSortUnique` | src/runtime/lib/Array.c:25-58 | there is exactly one such result |
| `ArraySort.StableIff` | src/runtime/lib/Array.c:31 | the sort is stable if and only if every class of ties reads the same backwards |
| `ArraySort.StableIffNoTies` | src/runtime/lib/Array.c:31 | on different elements it is stable if and only if no two of them tie |
| `ArraySort.TiesSwap` | src/runtime/lib/Array.c:31 | two tied elements that change places |
| `StringSearch.IndexOf` | src/runtime/lib/String.c:87-120 | an empty needle gives the start, at most the length; any index returned is a true occurrence at or after it; for a safe needle it is the first one, or -1 exactly when there is none |
| `StringSearch.ScanSound` | src/runtime/lib/String.c:109-117 | whatever the matcher reports is an occurrence, not before where it started |
| `StringSearch.ScanFromStart` | src/runtime/lib/String.c:109-117 | for a safe needle the matcher finds the first occurrence |
| `StringSearch.IndexOfRightIff` | src/runtime/lib/String.c:109-117 | the matcher is right in every haystack from everywhere if and only if the needle is safe |
| `StringSearch.SafeIffRepeats` | src/runtime/lib/String.c:112-113 | a needle is safe if and only if it repeats, to its end, the block before its first character comes back |
| `StringSearch.NoReturnSafe` | src/runtime/lib/String.c:112-113 | a needle whose first character does not recur is safe |
| `StringSearch.UnsafeMisses` | src/runtime/lib/String.c:109-117 | for every needle that is not safe, a haystack in which its occurrence is missed |
| `StringSearch.MissedNeedle` | src/runtime/lib/String.c:109-117 | "aab" is not found in "aaab" |
| `StringSearch.FindIsFirst` | src/str.c:65-68 | strstr's answer is the first occurrence, or -1 when there is none |
| `SplitJoin.Split` | src/runtime/lib/String.c:356-423 | the result is a beginning of the unlimited split, of exactly min(limit, number of pieces) pieces, 2^32 - 1 without a limit; a missing separator gives the string as one piece |
| `SplitJoin.SplitBy` | src/runtime/lib/String.c:395-420 | the loop and its last piece give exactly the first limit pieces |
| `SplitJoin.EmptySeparator` | src/runtime/lib/String.c:395-420 | an empty separator gives one piece for every character |
| `SplitJoin.Advance` | src/runtime/lib/String.c:395-410 | one turn of the loop completes exactly the next piece, or moves the matcher on without changing what it will report |
| `SplitJoin.Join` | src/runtime/lib/Array.c:414-440 | the texts joined, with undefined, absent and null elements as empty ones, a comma by default |
| `SplitJoin.JoinPieces` | src/runtime/lib/String.c:395-420 | the pieces joined with the separator are the string from the start position on |
| `SplitJoin.SplitThenJoin` | src/runtime/lib/String.c:356-423 | split without a limit and join with the same separator give the string back, always |
| `SplitJoin.SplitRightIff` | src/runtime/lib/String.c:395-410 | split cuts every non-empty string at its leftmost separators if and only if the separator is safe |
| `SplitJoin.UnsafeSplits` | src/runtime/lib/String.c:395-410 | for every separator that is not safe, a string it cuts wrongly |
| `SplitJoin.EmptyStringSplits` | src/runtime/lib/String.c:412-420 | a safe separator cuts as the standard asks exactly the non-empty strings; the empty one gives no pieces |
| `StrReplace.Replace` | src/str.c:58-85 | the original is returned exactly when an argument is null, the searched text is empty or absent; else a new buffer holds the text with the first min(limit, count) occurrences replaced, and its terminator, and nothing else |
| `StrReplace.CountUpTo` | src/str.c:68-69 | the counting pass counts the occurrences, capped by a positive limit |
| `StrReplace.Fill` | src/str.c:74-83 | the writing pass stays inside an allocation of the computed size and fills it to the last character |
| `StrReplace.Copy` | src/str.c:77 | the copied gap follows what was written before; the rest of the buffer is untouched |
| `StrReplace.CopyTerminated` | src/str.c:78-83 | the new text and its terminator fit, and follow what was written before |
| `StrReplace.ReplacedLength` | src/str.c:71 | the result is longer by the difference of the two texts for every replacement |
| `StrReplace.FoundAgain` | src/str.c:65-69 | counting from the first occurrence counts all of them |
| `StrReplace.AllReplacedIsJoin` | src/str.c:53-57 | replacing all occurrences is joining the leftmost pieces by the new text, one gap for each occurrence |
| `StrReplace.ReplacedIsMixed` | src/str.c:53-57 | with a limit the first gaps get the new text, the others keep the old |
| `StrReplace.ReplaceByItself` | src/str.c:58-85 | replacing a text by itself changes nothing, whatever the limit |
| `NodeCursor.Node.constructor` | src/nodes.c:36-70 | a new node is not visited |
| `NodeCursor.Extend` | src/grammar.y:283-287 | a new head in front of the list appends its child in source order |
| `NodeCursor.NodePop` | src/nodes.c:72-79 | hands out the next child in source order; the visited nodes stay a tail segment, one longer |
| `NodeCursor.NodeRewind` | src/nodes.c:87-94 | brings the cursor back to the start, or as far as the first node without a child |
| `NodeCursor.RewoundIff` | src/nodes.c:91 | it is back at the start if and only if nothing was read or every node has a child |
| `NodeCursor.NodeCount` | src/nodes.c:96-106 | the number of nodes with a child; a node without one adds nothing |
| `NodeCursor.CountIsCardinality` | src/nodes.c:96-106 | counting along the list counts the positions whose node has a child |
| `NodeCursor.CountOfFullList` | src/nodes.c:96-106 | which is the length of a list without empty nodes |
| `NodeCursor.NoNodeTwice` | src/nodes.c:72-79 | a list that ends holds no node twice |
| `NodeCursor.PopAll` | src/nodes.c:72-85 | from any cursor the rest comes in source order, and the head is marked exactly at the last child |
| `NodeCursor.EvalEach` | src/eval.c:33-40 | children in source order, wherever an earlier evaluation stopped, up to the first whose evaluation comes to the same list again, to any depth |
| `NodeCursor.EvalChild` | src/eval.c:33-40 | a child that comes back to the list, however often and deep, leaves it read to the end; any other leaves the cursor where it was |
| `NodeCursor.EvalEachAllIff` | src/eval.c:33-40 | all children are evaluated if and only if none but the last evaluates the list again |
| `NodeCursor.SecondChildLost` | src/eval.c:33-40 | a list of two whose first child comes back to it evaluates only that child |
| `NodeCursor.FuncDecScan` | src/eval.c:517-530 | the scan reads the rest and leaves the cursor at the start |
| `NodeCursor.BuildArgs` | src/eval.c:765-777 | the recursion collects the remaining arguments in source order and leaves the list rewound; the empty list gives none |
| `Props.Obj.GetPropRec` | src/props.c:69-76 | the binding of the innermost scope that defines the name |
| `Props.Obj.GetRec` | src/props.c:38-44 | its value, or undefined |
| `Props.Obj.SetProp` | src/props.c:104-133 | exactly one binding is written, to the value; given flags are taken, an existing property keeps its own when none are given, a new one then has all three; circular holds exactly when the value is its owner |
| `Props.Obj.Set` | src/props.c:95-99 | an assignment keeps the flags of an existing property, and gives a new one all three |
| `Props.Obj.SetRec` | src/props.c:138-156 | on any scope chain, one binding of one scope is new, every property that existed in any scope keeps its flags, and no other name changes |
| `Props.AssignsWhere` | src/props.c:138-156 | the scope written is the innermost that defines the name, else the first, where the new property has all three flags |
| `Props.Obj.DelProp` | src/props.c:163-170 | removes exactly the named property and says whether it was there |
| `Props.ReadsAfterAssigning` | src/props.c:38-76 | after an assignment the name reads as the new value from every scope up to the one written; every other lookup, from every scope, is as before |
| `Props.DeletingUncovers` | src/props.c:163-170 | deleting the innermost binding uncovers the next one further out |
| `Props.NoScopeTwice` | src/props.c:138-156 | a scope chain that ends holds no scope twice |

## Left out

- The evaluator (`src/eval.c`) apart from its list loops: control flow, operators and casts are not modelled.
- NodeCursor.EvalEach: does not model an evaluation of a child that leaves the same list half read, as a return or break out of it can.
- NodeCursor.BuildArgs: does not model an argument whose evaluation comes to the same argument list again; the recursion then reads the list from wherever the inner call left it.
- Explicit `gc.run()` while a reachable slot lies behind a vacant one, in the whole-run theorem: it is shown to break it.
- The C stack: a value that is neither reachable nor the newest allocation counts as dropped; runs assume that the interpreter writes and roots only live values.
- GcRuns.RunSafe: does not model the interpreter's remembered prototypes as roots, since the code does not; its runs are those in which a new value's pointers are kept as AllocKeepsInvIff says, which a remembered prototype that is no longer reachable may break.
- More than one arena, freeing of strings (the sweep works on a copy of the slot), the "flagged" debugging aid and profiling output.
- Object fields that `fh_new_val` leaves uninitialised: a slot is modelled after its constructor has set them.
- Concrete hash functions, the Bloom filter, HASH_SELECT, HASH_CLEAR, memory exhaustion and 32-bit overflow of counters in uthash; bucket indices are written as a remainder instead of a mask of a power of two.
- The offset between an element and its hash handle: they are one object; keys and values are immutable, and a run's add leaves an existing key's element alone, as its callers find before they add.
- UtHashSort.Sort: does not model a comparison with side effects; it is a function of the two elements and a total preorder on the list, and a run sorts by a function of keys and values.
- Sorting with a JavaScript comparison function, sorting arrays with holes, and the other array methods.
- ArraySort.MergeSort: does not model the property records behind the pointers; elements are opaque and the comparison is a strict weak order.
- StringSearch.IndexOf: does not model a negative fromIndex once the loop is entered, where the code reads in front of the string; lastIndexOf is not modelled.
- SplitJoin.Split: does not model regular expression separators; strings hold no NUL character, as C strings cannot.
- SplitJoin.SplitThenJoin: does not model strings of 2^31 characters and more, whose lengths do not fit the code's int.
- `fh_str_concat` and `fh_str_slice` are sequence concatenation and slicing; that slices are within bounds is checked where they are taken.
- StrReplace.Replace: does not model a failing malloc, or sizes beyond int; a limit that runs below the range of int is not modelled either.
- Local time, time zones, `date_parse_loc` (a parameter of `ParseStr`), `date_format_loc` and the current time.
- Rounding of doubles: time values and parts are mathematical integers; in-range times are below 2^53. NaN arguments of setters are their number field, 0.
- DateText.DateParseIso: does not model `atoi` on blanks and signs, which the accepted formats exclude, nor `isalpha` beyond ASCII.
- Props.Obj.SetProp: does not model the order of properties, which UtHash covers; reading a property of undefined (the thrown TypeError) and the prototype chain are not modelled.
- The flex and bison parser, regular expressions, REPL, console, debug printing, file loading, Math and Number.
