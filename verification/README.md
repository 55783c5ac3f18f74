# Verified models of Fast DDS components

Dafny models of the stateful algorithms of Fast DDS, with proofs of what they promise over every input,
every run or every interleaving. `dafny verify dfyconfig.toml` checks the whole project.

- **Shared-memory ring buffer** (`RingPointer`, `RingBuffer`): the lock-free multi-producer, multi-consumer
  buffer as a step system with one step per shared access. Any number of producers and listeners interleave;
  registering and unregistering exclude pushes, as they do under the port's mutex
  (src/cpp/rtps/transport/shared_mem/SharedMemGlobal.hpp:521-546, 711-737, 748-760), but not pops.
- **Reader-side bookkeeping** (`SequenceNumbers`, `WriterProxy`, `BitmapRange`, `ReceivedChanges`, `Ascending`):
  which changes of a writer are known, the acknowledgement set sent back, its 256-bit bitmap, and the small
  tracker of utils/futureCode, proved to agree with WriterProxy on received numbers.
- **Skip list** (`SkipList`): nodes on the heap with one forward pointer array each, proved against the list of
  their nodes.
- **File watcher** (`InotifyBuffer`, `FileWatch`): the walk over packed inotify records, the change-stamp filter
  and the two-thread hand-over.
- **Discovery server set-up** (`PortOptions`, `DiscoveryServer`): the command line to locators and transports.
- **Loanable sequence** (`LoanableSequence`) and **annotation text** (`Decimal`, `AnnotationText`).

Where a promise turned out not to hold everywhere, the code is kept and the exact condition is proved:

- `add_range` is documented as equivalent to adding each item. It ignores the allowed maximum, so this holds
  exactly when the items of the span beyond it are held already (`BitmapRange.AddRangeLaw`).
- `base_update` counts bits that do not exist when it moves an empty range back, so `empty()` is then wrong
  (`BitmapRange.EmptyAfterUpdate`), and its difference passes through a uint32_t
  (`BitmapRange.LongJumpForward`, `BitmapRange.LongJumpBack`).
- `remove` on an empty set compares with a wrapped `max()`, so for far items it leaves its words
  (`BitmapRange.BitmapRange.Remove`, `BitmapRange.EmptyRemovesOutside`). This is with SequenceNumber_t as the item type.
- `bitmap_set` trims the last word by the count given, not by the 256 it is cut to (`BitmapRange.TakenWhole`).
- `lost_changes_update` clamps each count, so the losses it reports add up to the changes given up exactly when no
  single call gives up more than an int32_t counts (`WriterProxy.ReportedConserved`).
- One locator per given address: `LocatorList::push_back` drops repetitions
  (`DiscoveryServer.OneLocatorPerAddress`, `DiscoveryServer.OneTcpLocatorPerAddress`).
- TCP transports are said not to share a port. Only running out of ports is refused, not a port given twice
  (`DiscoveryServer.NoSharedTcpPort`).
- The skip list's `insert` overwrites recorded predecessors with the head from the current height up. It puts a
  key in its place exactly when no node ahead of the place reaches those levels, or the drawn level does not
  (`SkipList.SkipList.Insert`). `insert_at_end` never raises the current height, so after appending only the front
  is such a place (`SkipList.SkipList.AfterAppendingOnlyFront`, `SkipList.PublicRun`).
- Text round trips of booleans and characters (`AnnotationText.BooleanRoundTrip`, `AnnotationText.CharRoundTrip`).

Readings of the source: `fwdNodes` in SkipList.cpp lines 112-137 is `mp_fwdNodes`, and the node
that line 116 calls the one before the place is the one behind it. The comment at server.cpp
lines 286-291 gives the any-address locator to a lone UDP port only without TCP options; the code gives it with
them too, and the model follows the code. The starting value of `m_largestSequenceNumberReceived` is a parameter.

What the environment decides is a parameter: the random draws of `newLevel`, the name filter and the contents
and stamps of reads in the file watcher, and address parsing and name lookup in the discovery server, where a
failing parse may leave arbitrary octets behind and equal names resolve alike. A file-watch
callback is set. The step systems interleave sequentially consistent accesses.

## Model

| member | source | states |
|---|---|---|
| RingPointer.IncPointerEncodes | src/cpp/rtps/transport/shared_mem/MultiProducerConsumerRingBuffer.hpp:328-343 | Incrementing a pointer, with the loop flag flipping where the index wraps, is going from the k-th entry ever pushed to the next |
| RingPointer.EncodeInjective | src/cpp/rtps/transport/shared_mem/MultiProducerConsumerRingBuffer.hpp:90-94 | Between two entries at most one lap apart equal pointers mean the same entry, so a full buffer never reads as empty |
| RingPointer.PointerToHeadEncodes | src/cpp/rtps/transport/shared_mem/MultiProducerConsumerRingBuffer.hpp:345-364 | With at most a lap of free cells and at least a lap of entries and free cells together, the computed head is the entry one lap before the write position plus the free cells |
| RingBuffer.InitEstablishes | src/cpp/rtps/transport/shared_mem/MultiProducerConsumerRingBuffer.hpp:165-184 | A freshly constructed buffer satisfies the invariant |
| RingBuffer.ReserveKeeps | src/cpp/rtps/transport/shared_mem/MultiProducerConsumerRingBuffer.hpp:208-231 | The successful compare-exchange of push keeps the invariant: every held cell has its item and counts the listeners still to pop it |
| RingBuffer.WriteKeeps | src/cpp/rtps/transport/shared_mem/MultiProducerConsumerRingBuffer.hpp:233-235 | Copying the item into the reserved cell keeps the invariant, so no published entry and no other producer is disturbed |
| RingBuffer.PublishKeeps | src/cpp/rtps/transport/shared_mem/MultiProducerConsumerRingBuffer.hpp:236-238 | Storing the listener count keeps the invariant, so what is stored counts exactly the listeners that have to pop the entry |
| RingBuffer.LoadKeeps | src/cpp/rtps/transport/shared_mem/MultiProducerConsumerRingBuffer.hpp:86-94 | The write-pointer test of head keeps the invariant: a listener that goes on is behind a reserved entry |
| RingBuffer.CheckKeeps | src/cpp/rtps/transport/shared_mem/MultiProducerConsumerRingBuffer.hpp:96-99 | The counter test of head keeps the invariant: a listener that goes on has seen its entry published |
| RingBuffer.TakeCounter | src/cpp/rtps/transport/shared_mem/MultiProducerConsumerRingBuffer.hpp:110-121 | At fetch_sub the counter is the number of listeners yet to pop the entry, the caller among them; at 1 the caller is the only one and the entry the oldest, above 1 there is another |
| RingBuffer.TakeKeeps | src/cpp/rtps/transport/shared_mem/MultiProducerConsumerRingBuffer.hpp:108-121 | fetch_sub keeps the invariant: the released entries are those popped by the slowest listener |
| RingBuffer.FreeKeeps | src/cpp/rtps/transport/shared_mem/MultiProducerConsumerRingBuffer.hpp:121-131 | The late free-cell increment keeps the cell accounting |
| RingBuffer.AdvanceKeeps | src/cpp/rtps/transport/shared_mem/MultiProducerConsumerRingBuffer.hpp:133-136 | Incrementing the read pointer keeps it at the next entry of the listener |
| RingBuffer.RegisterKeeps | src/cpp/rtps/transport/shared_mem/MultiProducerConsumerRingBuffer.hpp:251-269 | Registering while no push is under way keeps the invariant, with other listeners popping at will |
| RingBuffer.UnregisterKeeps | src/cpp/rtps/transport/shared_mem/MultiProducerConsumerRingBuffer.hpp:366-389 | Unregistering a drained listener while no push is under way keeps the invariant |
| RingBuffer.StepKeeps | src/cpp/rtps/transport/shared_mem/MultiProducerConsumerRingBuffer.hpp:86-137 | Every step of every producer and listener keeps the invariant |
| RingBuffer.RunKeeps | src/cpp/rtps/transport/shared_mem/MultiProducerConsumerRingBuffer.hpp:86-137 | Every interleaving keeps the invariant |
| RingBuffer.LogIsPushed | src/cpp/rtps/transport/shared_mem/MultiProducerConsumerRingBuffer.hpp:208-239 | Over every run the history of reservations grows by exactly the items given to push, in order |
| RingBuffer.SinceRegistered | src/cpp/rtps/transport/shared_mem/MultiProducerConsumerRingBuffer.hpp:251-269 | Where a listener started is where the history was at its last registration in the run |
| RingBuffer.DeliveryInOrder | src/cpp/rtps/transport/shared_mem/MultiProducerConsumerRingBuffer.hpp:26-34 | In every interleaving the items a listener has read are the first of those given to push since its last registration in the run, in order, none lost, repeated or overwritten; between two pops they are all of them exactly when its read pointer is at the write pointer |
| RingBuffer.PopGoesOn | src/cpp/rtps/transport/shared_mem/MultiProducerConsumerRingBuffer.hpp:86-99 | A listener at rest goes on exactly when it is behind, and past the counter test exactly when its entry is published |
| RingBuffer.PopDelivers | src/cpp/rtps/transport/shared_mem/MultiProducerConsumerRingBuffer.hpp:108-137 | A pop can always complete: with its next entry published a listener reads exactly that item and rests again |
| RingBuffer.PushPublishes | src/cpp/rtps/transport/shared_mem/MultiProducerConsumerRingBuffer.hpp:208-239 | A push can always complete: with a listener and a free cell an idle producer publishes exactly its item |
| RingBuffer.LogOnlyGrows | src/cpp/rtps/transport/shared_mem/MultiProducerConsumerRingBuffer.hpp:208-239 | The reservation order is never revised along a run |
| RingBuffer.AccessesSafe | src/cpp/rtps/transport/shared_mem/MultiProducerConsumerRingBuffer.hpp:96-118 | In every reachable state no access leaves the cell array, no fetch_sub underflows, a popped cell holds the right item and a written cell is counted by nobody |
| RingBuffer.CellsConserved | src/cpp/rtps/transport/shared_mem/MultiProducerConsumerRingBuffer.hpp:241-249 | Free cells, entries some listener still has to pop and increments still due add up to the capacity; with none due, full and empty mean what they say |
| RingBuffer.Copy | src/cpp/rtps/transport/shared_mem/MultiProducerConsumerRingBuffer.hpp:285-313 | While nothing writes to the buffer, as copy demands, the walk from the computed head returns exactly the entries some listener still has to pop, in order |
| RingBuffer.UnguardedRegisterLeaks | src/cpp/rtps/transport/shared_mem/MultiProducerConsumerRingBuffer.hpp:255-257 | Why registering excludes pushes: for every state with an item written and not yet published, registering first makes the published counter one more than the listeners that will pop the entry |
| SequenceNumbers.OrderIsNumeric | include/fastdds/rtps/common/SequenceNumber.h:183-193 | The two-word comparison and equality are those of the represented 64-bit numbers |
| SequenceNumbers.PlusMinusAreNumeric | include/fastdds/rtps/common/SequenceNumber.h:237-273 | Carry and borrow are exact for every uint32_t, the result fits exactly while the high word suffices, and subtracting undoes adding |
| SequenceNumbers.AssertsMean | include/fastdds/rtps/common/SequenceNumber.h:237-273 | The assertion of + holds exactly when the result fits; that of -, from a non-negative number, exactly when the result is not negative; from a negative high word it allows no borrow at all |
| WriterProxy.CleanupKeeps | src/cpp/rtps/reader/WriterProxy.cpp:398-412 | Swallowing consecutive numbers changes neither what is known nor how much is known, and leaves the low mark maximal |
| WriterProxy.ReceiveKeeps | src/cpp/rtps/reader/WriterProxy.cpp:291-342 | A change is accepted if and only if it was not known; then it becomes known and nothing else does |
| WriterProxy.LoseKeeps | src/cpp/rtps/reader/WriterProxy.cpp:232-275 | Everything below the number becomes known and nothing else; the count is the number of changes that were not known before |
| WriterProxy.UnknownCount | src/cpp/rtps/reader/WriterProxy.cpp:247-260 | The counting formula gives the number of unknown changes below a number |
| WriterProxy.ApplyMeans | src/cpp/rtps/reader/WriterProxy.cpp:205-342 | One operation keeps the meaning of the state |
| WriterProxy.RunMeans | src/cpp/rtps/reader/WriterProxy.cpp:205-342 | After any run of received, lost and announced numbers the known numbers are those some operation settles, and the maximum is the highest any of them reached |
| WriterProxy.KnownDetermines | src/cpp/rtps/reader/WriterProxy.cpp:291-342 | Two states with the same maximum and the same known numbers are equal |
| WriterProxy.OrderIrrelevant | src/cpp/rtps/reader/WriterProxy.cpp:205-342 | Two runs over the same set of operations, in any order and with any repetition, end in the same state |
| WriterProxy.AcceptedOnce | src/cpp/rtps/reader/WriterProxy.cpp:277-342 | Over any run a change is accepted if and only if it is above the base, was not received before and was not given up before |
| WriterProxy.ChangesConserved | src/cpp/rtps/reader/WriterProxy.cpp:232-342 | Over any run the known numbers above the base are as many as the accepted ones plus the ones given up |
| WriterProxy.ReportedBounded | src/cpp/rtps/reader/WriterProxy.cpp:247-260 | The losses reported over a run, each clamped to an int32_t, never exceed the changes given up, and equal them if and only if no single call gives up more than an int32_t counts |
| WriterProxy.ReportedConserved | src/cpp/rtps/reader/WriterProxy.cpp:232-342 | The known numbers above the base are the accepted ones plus the ones reported lost if and only if no single loss is too large to report |
| WriterProxy.LargeLossIsClamped | src/cpp/rtps/reader/WriterProxy.cpp:247-260 | A run that fails it: giving up the first 2^31 changes at once is reported as one less |
| WriterProxy.MarksTellMissing | src/cpp/rtps/reader/WriterProxy.cpp:414-421 | The marks differ if and only if some number up to the maximum is not known |
| WriterProxy.WriterProxy.constructor | src/cpp/rtps/reader/WriterProxy.cpp:205-211 | A loaded proxy knows exactly the numbers up to the stored one |
| WriterProxy.WriterProxy.CleanUp | src/cpp/rtps/reader/WriterProxy.cpp:398-412 | The loop and the erase leave the state of the reference clean-up |
| WriterProxy.WriterProxy.ReceivedChangeSet | src/cpp/rtps/reader/WriterProxy.cpp:277-342 | Accepted exactly when not known; that number becomes known and nothing else, and the maximum is raised to it; the state is that of the reference operation |
| WriterProxy.WriterProxy.CountLost | src/cpp/rtps/reader/WriterProxy.cpp:247-260 | The unsigned 64-bit subtraction loses nothing to wrap-around |
| WriterProxy.WriterProxy.LostChangesUpdate | src/cpp/rtps/reader/WriterProxy.cpp:232-275 | Everything below the number becomes known and nothing else; the result is the number of changes newly given up, clamped to an int32_t; the state is that of the reference operation |
| WriterProxy.WriterProxy.MissingChangesUpdate | src/cpp/rtps/reader/WriterProxy.cpp:213-230 | The announced maximum is raised and nothing else changes |
| WriterProxy.WriterProxy.MissingChanges | src/cpp/rtps/reader/WriterProxy.cpp:344-371 | The bitmap starts above the low mark and holds exactly the unknown numbers among the next 256, up to the maximum; its count is exact, so empty() is true exactly when the marks agree |
| WriterProxy.TrackersAcceptAlike | src/cpp/rtps/reader/WriterProxy.cpp:291-342 | On any run of received numbers WriterProxy and ReceivedChanges accept the same numbers |
| WriterProxy.TrackersMissAlike | utils/futureCode/ReceivedChanges.cpp:35-79 | On any run of received numbers the gap vector of ReceivedChanges holds exactly what WriterProxy does not know |
| BitmapRange.BitmapRange.constructor | include/fastrtps/utils/fixed_size_bitmap.hpp:108-123 | An empty range with the maximum cut to the width of the bitmap |
| BitmapRange.BitmapRange.IsSet | include/fastrtps/utils/fixed_size_bitmap.hpp:267-285 | True if and only if the item is held and not above the allowed maximum |
| BitmapRange.BitmapRange.Add | include/fastrtps/utils/fixed_size_bitmap.hpp:287-312 | Exactly the items in the allowed range are added, nothing else changes, and an exact count stays exact |
| BitmapRange.BitmapRange.AddRange | include/fastrtps/utils/fixed_size_bitmap.hpp:323-367 | The masked word loop sets exactly the bits of the requested span inside the bitmap and moves the count to its end |
| BitmapRange.AddSpanHolds | include/fastrtps/utils/fixed_size_bitmap.hpp:314-367 | After add_range exactly the old items and the span are held |
| BitmapRange.AddEachSets | include/fastrtps/utils/fixed_size_bitmap.hpp:295-312 | Adding item by item sets exactly the bits of the span within the allowed maximum |
| BitmapRange.AddRangeLaw | include/fastrtps/utils/fixed_size_bitmap.hpp:314-322 | The documented equivalence with adding item by item holds if and only if every item of the span that is above the allowed maximum but inside the bitmap is held already |
| BitmapRange.AddRangePassesMaximum | include/fastrtps/utils/fixed_size_bitmap.hpp:314-322 | A span that fails it: with 12 allowed, adding [10, 20) from base 10 puts 15 in, adding item by item does not |
| BitmapRange.AddRangeLawByDefault | include/fastrtps/utils/fixed_size_bitmap.hpp:102-106 | With the default maximum the documented equivalence always holds |
| BitmapRange.BitmapRange.ShiftMapLeft | include/fastrtps/utils/fixed_size_bitmap.hpp:492-535 | The word-wise shift is the shift of the 256 bits, and the count falls with it |
| BitmapRange.BitmapRange.ShiftMapRight | include/fastrtps/utils/fixed_size_bitmap.hpp:537-588 | The word-wise shift is the shift of the 256 bits; the count rises with it, or ends at the last set bit when it would pass 256 |
| BitmapRange.BitmapRange.CalcMaximumBitSet | include/fastrtps/utils/fixed_size_bitmap.hpp:591-615 | The count ends at the last set bit |
| BitmapRange.BitmapRange.BaseUpdate | include/fastrtps/utils/fixed_size_bitmap.hpp:168-200 | The whole new state: base and maximum are the new ones, bits and count are the old ones moved by the difference modulo 2^32 |
| BitmapRange.CountAfterUpdate | include/fastrtps/utils/fixed_size_bitmap.hpp:168-200 | For every valid bitmap: exactly when the count ends at the last set bit after base_update |
| BitmapRange.RebasedHolds | include/fastrtps/utils/fixed_size_bitmap.hpp:168-200 | Which old item a held item of the moved range comes from |
| BitmapRange.WindowKept | include/fastrtps/utils/fixed_size_bitmap.hpp:168-200 | For jumps below 2^32 exactly the held items inside the new window are still held |
| BitmapRange.MovedWindowOpen | include/fastrtps/utils/fixed_size_bitmap.hpp:196-199 | After base_update exactly the 256 items of the new window can be added, and nothing held is hidden from is_set |
| BitmapRange.LongJumpForward | include/fastrtps/utils/fixed_size_bitmap.hpp:183-189 | For longer jumps forward that holds if and only if every held item is below the remainder modulo 2^32 |
| BitmapRange.LongJumpBack | include/fastrtps/utils/fixed_size_bitmap.hpp:190-195 | For longer jumps back that holds if and only if the remainder moves every held item out of the window |
| BitmapRange.LongJumpsGoWrong | include/fastrtps/utils/fixed_size_bitmap.hpp:183-195 | Bases that fail it: with item 7 held, jumps by exactly 2^32 either way |
| BitmapRange.EmptyAndMax | include/fastrtps/utils/fixed_size_bitmap.hpp:202-220 | empty() and max() are right if and only if the count ends at the last set bit |
| BitmapRange.EmptyAfterUpdate | include/fastrtps/utils/fixed_size_bitmap.hpp:202-210 | For every valid bitmap empty() is right after base_update, except exactly when forward something is still counted but nothing of it held, or back nothing is held and the moved count still fits |
| BitmapRange.EmptyAfterExactUpdate | include/fastrtps/utils/fixed_size_bitmap.hpp:202-210 | From an exact count that is an empty range moved back by less than its width and nothing else |
| BitmapRange.EmptyMovedBack | include/fastrtps/utils/fixed_size_bitmap.hpp:184-200 | A base that fails it: the empty range from 10 moved to 5 counts five items and holds none |
| BitmapRange.BitmapRange.Remove | include/fastrtps/utils/fixed_size_bitmap.hpp:369-394 | The access stays inside the words if and only if something is counted or the item is not from base + 256 up to base + 2^32 - 1; then exactly that item is no longer held, and an exact count stays exact |
| BitmapRange.EmptyRemovesOutside | include/fastrtps/utils/fixed_size_bitmap.hpp:212-220 | An item that fails it: removing 300 from the empty set from 1 passes the test against max() and leaves the eight words |
| BitmapRange.BitmapRange.MinItem | include/fastrtps/utils/fixed_size_bitmap.hpp:222-258 | The lowest item held, or the base if none is |
| BitmapRange.BitmapRange.ForEach | include/fastrtps/utils/fixed_size_bitmap.hpp:439-481 | The nested loops visit exactly the held items, each once and in ascending order |
| BitmapRange.BitmapRange.BitmapSet | include/fastrtps/utils/fixed_size_bitmap.hpp:421-437 | The received bits below the count are taken over, trimmed as stated next, and the count ends at the last set bit |
| BitmapRange.TakenWhole | include/fastrtps/utils/fixed_size_bitmap.hpp:421-437 | Every received bit below the count is taken over if and only if the count is at most 256, a multiple of 32, or no bit is set where the last word is trimmed |
| BitmapRange.FullBitmapTrimmed | include/fastrtps/utils/fixed_size_bitmap.hpp:432-436 | A bitmap that fails it: all bits set with a count of 257 |
| BitmapRange.GetThenSet | include/fastrtps/utils/fixed_size_bitmap.hpp:395-437 | What bitmap_get hands out, bitmap_set takes over as the same items and, from an exact count, the same count |
| SkipList.SkipNode.constructor | utils/futureCode/SkipList.cpp:36-52 | A node of the given height whose forward pointers are all null |
| SkipList.SkipList.constructor | utils/futureCode/SkipList.cpp:56-72 | An empty list: null forward pointers, every tail at the head, current height 0 |
| SkipList.SkipList.NewLevel | utils/futureCode/SkipList.cpp:152-162 | Every draw before the level succeeded, and the level is the maximum or its draw failed |
| SkipList.SkipList.LinkTails | utils/futureCode/SkipList.cpp:92-97 | At every level below its height the new node hangs behind the last node and is the tail; no other pointer moves |
| SkipList.SkipList.InsertAtEnd | utils/futureCode/SkipList.cpp:89-99 | The list is the old one with one new node of the drawn height at its end, linked and tailed at every level; the current height is unchanged |
| SkipList.SkipList.AppendRun | utils/futureCode/SkipList.cpp:89-99 | A whole run appends exactly the given objects in order, each with its drawn height |
| SkipList.SkipList.LevelChain | utils/futureCode/SkipList.cpp:57-99 | At every level the pointers visit exactly the nodes taller than the level, once each and in list order, end in null, and the tail is the last of them or the head |
| SkipList.SuccsVisitAbove | utils/futureCode/SkipList.cpp:57-99 | The level successor relation enumerates exactly the nodes that reach the level, without repetition |
| SkipList.LevelsNest | utils/futureCode/SkipList.cpp:101-141 | Every level is a subsequence of every level below it |
| SkipList.LevelsSorted | utils/futureCode/SkipList.cpp:101-141 | Every level of a sorted list is sorted |
| SkipList.SkipList.SearchLevel | utils/futureCode/SkipList.cpp:110-114 | From any position below the object the inner loop ends on the last node of its level below the object |
| SkipList.SearchEnd | utils/futureCode/SkipList.cpp:110-114 | Where the inner loop stops is the last node of its level below the object |
| SkipList.SkipList.FindPredecessors | utils/futureCode/SkipList.cpp:104-115 | The top-down search agrees with a linear scan: at every level from the current height down it records the last node below the object |
| SkipList.SkipList.Splice | utils/futureCode/SkipList.cpp:133-138 | At every level below its height the node goes behind the recorded one and takes over its pointer; no other pointer moves |
| SkipList.SkipList.RaiseHeight | utils/futureCode/SkipList.cpp:126-131 | For a taller node the head is recorded from the current height up and the height is raised; otherwise nothing changes |
| SkipList.SkipList.PlaceNode | utils/futureCode/SkipList.cpp:132-138 | Every level is the old one with the new node once, if it reaches it; if the recorded nodes are the last ones ahead of a position, the list is linked at all levels again with the node at that position |
| SkipList.LinkedBehind | utils/futureCode/SkipList.cpp:133-138 | Linking behind a node of a level puts the new node there and keeps the rest of the level, in order |
| SkipList.SkipList.Insert | utils/futureCode/SkipList.cpp:101-141 | False and unchanged if and only if the key is present. Otherwise every level is the old one with the new node exactly once, if it reaches the level. If the drawn level is at most the current height or no node ahead of the place is taller than it, the node is at the scanned position, the list sorted and linked, the keys grown by exactly that one. If not, the level at the old current height starts with the new key followed by a smaller one |
| SkipList.SkipList.DescendsUnsorted | utils/futureCode/SkipList.cpp:125-138 | A linked list with a level out of order is not sorted, so the two outcomes of an accepted insert exclude each other |
| SkipList.InsertSorted | utils/futureCode/SkipList.cpp:101-138 | A key put at the scanned position keeps the list sorted |
| SkipList.SkipList.BoundedPlacesWell | utils/futureCode/SkipList.cpp:125-131 | A current height that bounds every node makes every insertion go well |
| SkipList.InsertedBounded | utils/futureCode/SkipList.cpp:125-131 | The raised height bounds the nodes again, and a node put ahead of the last one leaves that the last |
| SkipList.SkipList.InsertRun | utils/futureCode/SkipList.cpp:101-141 | A whole run from a list bounded by its current height, up to its last key: sorted, linked and bounded all along, each call reports whether its key was new, and exactly the new keys are added, once each |
| SkipList.PublicRun | utils/futureCode/SkipList.cpp:56-141 | From construction: appending a last key, inserting a smaller one at least as tall and then any run of keys up to the last gives a sorted, linked list of exactly those keys |
| SkipList.SkipList.AfterAppendingOnlyFront | utils/futureCode/SkipList.cpp:89-131 | From current height 0, where constructing and appending leave it, an absent key goes to its place if and only if that is the front |
| SkipList.InsertMisplaces | utils/futureCode/SkipList.cpp:89-141 | A public run that fails: behind 1 and 3 of height 1, inserting 2 puts it first |
| SkipList.SkipList.Destroy | utils/futureCode/SkipList.cpp:74-87 | The walk deletes the head and whatever the level-0 pointers visit, each exactly once |
| SkipList.SkipList.WholeLevel | utils/futureCode/SkipList.cpp:74-87 | In a linked list that is every node |
| SkipList.SkipList.InsertThenDestroy | utils/futureCode/SkipList.cpp:74-141 | Whether insert misplaced the key or not, the destructor then deletes the head, every old node and the new one, each exactly once |
| ReceivedChanges.BackScanFinds | utils/futureCode/ReceivedChanges.cpp:64-79 | On any vector the early-exit scan finds a number exactly where only larger ones follow it |
| ReceivedChanges.BackScanIsSearch | utils/futureCode/ReceivedChanges.cpp:64-79 | On an ascending vector the scan finds a number if and only if it is there |
| ReceivedChanges.BackScanCanMiss | utils/futureCode/ReceivedChanges.cpp:75-76 | On an unordered vector the scan can miss a number that is there |
| ReceivedChanges.ReceivedChanges.AddNumber | utils/futureCode/ReceivedChanges.cpp:35-50 | State and result are those of the reference step |
| ReceivedChanges.ReceivedChanges.InsertMissingSequenceNumbers | utils/futureCode/ReceivedChanges.cpp:52-62 | Exactly the skipped numbers are appended, in order |
| ReceivedChanges.ReceivedChanges.MissingSequenceNumberReceived | utils/futureCode/ReceivedChanges.cpp:64-79 | The loop erases and reports exactly what the reference scan finds |
| ReceivedChanges.AddTracks | utils/futureCode/ReceivedChanges.cpp:35-79 | One call keeps the meaning of the state and accepts exactly a new number above the base |
| ReceivedChanges.RunTracks | utils/futureCode/ReceivedChanges.cpp:35-79 | After any run the vector is ascending and holds exactly the numbers between base and largest that never came; largest is the maximum of base and all added |
| ReceivedChanges.AcceptedOnce | utils/futureCode/ReceivedChanges.cpp:35-79 | Over any run a number is accepted if and only if it is above the base and was not added before |
| ReceivedChanges.OrderIrrelevant | utils/futureCode/ReceivedChanges.cpp:35-79 | Runs over the same numbers, in any order and with any repetition, end in the same state |
| InotifyBuffer.RecordReads | thirdparty/filewatch/FileWatch.hpp:532-535 | Decoding a record anywhere in a buffer gives back mask, length and name as encoded |
| InotifyBuffer.HasMeans | thirdparty/filewatch/FileWatch.hpp:538-546 | A mask has a bit whatever is set above and below it |
| InotifyBuffer.ReportMeans | thirdparty/filewatch/FileWatch.hpp:535-551 | What a record adds, by its mask: with bit 0x100 an added event, otherwise with 0x200 a removed one, otherwise with 0x2 a modified one if none came earlier; whatever other bits are set, and only with a name that passes |
| InotifyBuffer.CreatedDirectory | thirdparty/filewatch/FileWatch.hpp:538-541 | A created directory, mask 0x40000100, is reported as added |
| InotifyBuffer.Walk | thirdparty/filewatch/FileWatch.hpp:523-554 | Over any packed records the walk meets each once, ends exactly at the length and yields in order what the records add, as stated before |
| FileWatch.Split | thirdparty/filewatch/FileWatch.hpp:260-279 | Directory and file name recombine to the path, the file name has no slash, a missing directory becomes "./" |
| FileWatch.SplitUnique | thirdparty/filewatch/FileWatch.hpp:260-279 | It is the only split with those properties |
| FileWatch.AcceptedNext | thirdparty/filewatch/FileWatch.hpp:523-527 | One more read is acted on exactly if it has records and a stamp different from the last accepted one |
| FileWatch.AcceptedStampsDiffer | thirdparty/filewatch/FileWatch.hpp:512-527 | No two consecutive accepted stamps are equal, counting the one taken at construction |
| FileWatch.ReadKeeps | thirdparty/filewatch/FileWatch.hpp:508-527 | A read that returns keeps the invariant, acted on or passed over |
| FileWatch.AppendKeeps | thirdparty/filewatch/FileWatch.hpp:555-559 | The monitor's append keeps it |
| FileWatch.SwapKeeps | thirdparty/filewatch/FileWatch.hpp:569-575 | The callback thread's swap keeps it |
| FileWatch.HandKeeps | thirdparty/filewatch/FileWatch.hpp:577-587 | Handing one event over keeps it |
| FileWatch.StepKeeps | thirdparty/filewatch/FileWatch.hpp:508-589 | Every step of the monitor, the callback thread and destroy keeps the invariant |
| FileWatch.RunKeeps | thirdparty/filewatch/FileWatch.hpp:508-589 | Every interleaving keeps the invariant |
| FileWatch.HistoryIsRun | thirdparty/filewatch/FileWatch.hpp:508-527 | Over every run the reads logged are exactly those that returned, in order; filter and first stamp stay |
| FileWatch.DeliveryInOrder | thirdparty/filewatch/FileWatch.hpp:555-589 | In every interleaving, also after destroy: delivered, then the batch in hand, then the shared vector, is what was produced; delivered is a prefix of the parses of the accepted reads of the run |
| FileWatch.ProducedIsParsed | thirdparty/filewatch/FileWatch.hpp:508-561 | In every interleaving what was produced, then the batch not yet appended, is the concatenated parses of exactly those reads of the run whose stamp differed from the last accepted one |
| FileWatch.ReadProduces | thirdparty/filewatch/FileWatch.hpp:508-561 | A monitor that is not stopped can read, and the read adds exactly its parse or, with no records or an old stamp, nothing |
| FileWatch.CanDeliver | thirdparty/filewatch/FileWatch.hpp:566-589 | With events in the shared vector the callback thread alone can deliver everything produced so far |
| PortOptions.CheckedPortReads | tools/fds/server.cpp:672-730 | A validated port string is read again as a uint16_t to the same value, between 1025 and 65535 |
| PortOptions.PrintedPortChecks | tools/fds/server.cpp:624-730 | Of the printed numbers exactly 1025 to 65535 pass as ports and exactly 0 to 255 as server ids |
| PortOptions.WrittenPortChecks | tools/fds/server.cpp:624-730 | Of all texts that write a number, with space, sign and rest, exactly those in range that go to the end pass; the later read takes such a text modulo 2^16 |
| PortOptions.NothingChecks | tools/fds/server.cpp:624-730 | A text without a number, or no text, passes nowhere |
| PortOptions.UncheckedPortWraps | tools/fds/server.cpp:262-273 | Without the validation the later read would take -m for 65536 - m; the validation rejects every such text |
| DiscoveryServer.PushAllExact | include/fastdds/rtps/common/LocatorList.hpp:267-288 | Pushing a list grows it by one per locator if and only if these are pairwise distinct and new; then they are appended as they are |
| DiscoveryServer.PushAllMembers | include/fastdds/rtps/common/LocatorList.hpp:267-288 | Pushing a list loses no locator and adds no other |
| DiscoveryServer.ResolveMeans | tools/fds/server.cpp:317-346 | What an address resolves to, by parser and lookup alone: the text as IPv4, then as IPv6, then the first IPv4 result of the lookup, and only without one the first IPv6 result |
| DiscoveryServer.SetAddress | tools/fds/server.cpp:312-346 | In that order, on the reused locators: the found family carries exactly the octets of the text that was set, whatever earlier attempts left; none is found exactly when what is tried fails |
| DiscoveryServer.TcpWordHalves | src/cpp/utils/IPLocator.cpp:607-642 | Physical and logical port of the word are both the port |
| DiscoveryServer.ListenUdp | tools/fds/server.cpp:306-386 | It succeeds exactly when all addresses resolve and the used ports read; the list is that of the addresses in order with repetitions dropped, the k-th with the k-th port, the last one when they run out, or the default |
| DiscoveryServer.UdpRow | tools/fds/server.cpp:249-274 | The k-th UDP locator has the resolved family and address and the k-th port, the last one when they run out, 11811 when there is none |
| DiscoveryServer.ListenTcp | tools/fds/server.cpp:439-542 | It succeeds exactly when all addresses resolve, the used ports read and there are no more addresses than ports (than one, without ports); the locators with the k-th port or the default are pushed in order, repetitions dropped, and one transport per address is added on that port |
| DiscoveryServer.TcpRow | tools/fds/server.cpp:399-542 | The k-th TCP locator and transport have the resolved family and address and the k-th port, or 42100, as physical, logical and listening port |
| DiscoveryServer.TcpEnough | tools/fds/server.cpp:524-542 | With resolving addresses and validated ports TCP is accepted exactly when there are at most max(ports, 1) addresses |
| DiscoveryServer.ConfigureUdp | tools/fds/server.cpp:249-397 | The UDP part of the documented table, and a UDPv6 transport exactly when some address resolved to IPv6 |
| DiscoveryServer.UdpKinds | tools/fds/server.cpp:388-397 | The built list has a UDPv6 locator if and only if some address resolved to IPv6 |
| DiscoveryServer.ConfigureTcp | tools/fds/server.cpp:399-544 | The TCP part of the documented table on top of the UDP part |
| DiscoveryServer.ChooseServer | tools/fds/server.cpp:169-220 | It goes on exactly with one valid server id, or with none and an XML file that describes a server |
| DiscoveryServer.ServerCases | tools/fds/server.cpp:169-205 | None: only an XML server with a prefix; one: exactly 0 to 255; more: refused |
| DiscoveryServer.Configure | tools/fds/server.cpp:76-544 | Participant creation is reached if and only if every argument is an option, help is not asked for, the XML file loads, one server is identified, every port was validated, every address resolves and TCP has enough ports; then locators and transports are those of the table, whose rows are stated one by one |
| DiscoveryServer.BothFamiliesListed | tools/fds/server.cpp:329-346 | A name whose lookup gives both families is listed with its first IPv4 address and adds no IPv6 transport |
| DiscoveryServer.OneLocatorPerAddress | tools/fds/server.cpp:372-374 | The list has one locator per address if and only if no two addresses resolve alike and get the same port; then it is the reference list |
| DiscoveryServer.RepeatedAddressIsDropped | tools/fds/server.cpp:372-374 | Every address that resolves, given twice without a port, is accepted and listed once |
| DiscoveryServer.OneTcpLocatorPerAddress | tools/fds/server.cpp:506-508 | One TCP locator per address is added if and only if no two addresses resolve alike with the same port and none is listed already; then they are appended in order |
| DiscoveryServer.NoSharedTcpPort | tools/fds/server.cpp:510-542 | No two added TCP transports share a port if and only if the ports used differ as numbers; then the locators differ too |
| DiscoveryServer.RepeatedTcpPortIsShared | tools/fds/server.cpp:487-542 | For any two addresses that resolve and any valid port: given twice it is accepted and both transports listen on it, and one address given twice is listed once |
| LoanableSequence.Sequence.Resize | include/fastrtps/types/DynamicLoanableSequence.hpp:122-137 | Earlier slots keep their elements, every new slot gets a newly created one, nothing is deleted |
| LoanableSequence.BalancedCreate | include/fastrtps/types/DynamicLoanableSequence.hpp:132-136 | Creating elements into new slots keeps every created element either held or deleted, once |
| LoanableSequence.Sequence.Release | include/fastrtps/types/DynamicLoanableSequence.hpp:142-158 | Every element held is deleted, in slot order, and the sequence is empty and owned |
| LoanableSequence.BalancedDelete | include/fastrtps/types/DynamicLoanableSequence.hpp:145-153 | Deleting every held element keeps it too |
| LoanableSequence.Sequence.SetLength | include/fastdds/dds/core/LoanableCollection.hpp:101-123 | It succeeds exactly when the length is not negative and the slots exist or may be created; elements are kept, and only missing ones are created |
| LoanableSequence.Sequence.MakeLoan | include/fastdds/dds/core/LoanableCollection.hpp:145-165 | It succeeds exactly when its documented preconditions hold, and then nothing owned is lost; a refused loan changes nothing |
| LoanableSequence.Sequence.ReturnLoan | include/fastdds/dds/core/LoanableCollection.hpp:183-202 | The loaned buffer comes back and the sequence is empty and owned; an owned one is not changed at all |
| LoanableSequence.Sequence.Destroy | include/fastrtps/types/DynamicLoanableSequence.hpp:81-90 | After destruction every element ever created has been deleted exactly once, also with a loan outstanding |
| LoanableSequence.Sequence.Lifetime | include/fastrtps/types/DynamicLoanableSequence.hpp:81-158 | Any operations in any order and then destruction delete every created element exactly once |
| Decimal.TextScans | include/fastrtps/types/AnnotationParameterValue.h:658-697 | Scanning what to_string printed gives back the number, to the last character |
| Decimal.WrittenScans | include/fastrtps/types/AnnotationParameterValue.h:722-757 | Any space, an optional sign and digits, whatever follows, scan as the number they write, to where the digits end |
| Decimal.NothingScans | include/fastrtps/types/AnnotationParameterValue.h:722-757 | Without a digit there no number is found |
| Decimal.LeadingZeros | include/fastrtps/types/AnnotationParameterValue.h:722-757 | Leading zeros do not count |
| Decimal.TextCanonical | include/fastrtps/types/AnnotationParameterValue.h:664-697 | Printed numbers have no leading zero, and a minus sign when negative |
| AnnotationText.AnnotationParameterValue.ToString | include/fastrtps/types/AnnotationParameterValue.h:658-700 | Booleans print as true and false, strings as they are, and numbers so that they scan back to their end |
| AnnotationText.AnnotationParameterValue.FromString | include/fastrtps/types/AnnotationParameterValue.h:705-801 | A boolean is true exactly unless the text is 0; strings and plain characters are taken over; an integer member gets any written number in its range, and a text without one throws. On the text of any value of the kind the member becomes that value if and only if the value survives. No other member changes, and nothing changes when the conversion throws |
| AnnotationText.ParseReads | include/fastrtps/types/AnnotationParameterValue.h:722-797 | Under an integer kind any written number is read, whatever space, sign and rest; it throws exactly when out of range for the conversion |
| AnnotationText.CastMeans | include/fastrtps/types/AnnotationParameterValue.h:722-797 | What is stored differs from the number by a multiple of the width and is in the range of the kind |
| AnnotationText.NumberRoundTrip | include/fastrtps/types/AnnotationParameterValue.h:664-698 | Every byte, 16-, 32- and 64-bit integer and enumerator survives printing and parsing, negative enumerators through the wrap-around of stoul |
| AnnotationText.RoundTrip | include/fastrtps/types/AnnotationParameterValue.h:658-801 | Every value comes back under its own discriminator if and only if it is an integer, an enumerator, a string, true or the character 53 |
| AnnotationText.BooleanRoundTrip | include/fastrtps/types/AnnotationParameterValue.h:710-720 | A boolean survives if and only if it is true |
| AnnotationText.CharRoundTrip | include/fastrtps/types/AnnotationParameterValue.h:771-775 | Of all signed char values exactly 53 survives |

## Left out

- Weak memory orderings of the ring buffer's atomics: steps are sequentially consistent.
- Failed compare-exchanges and refused pushes of the ring buffer: they change nothing.
- Copying and assigning a `BitmapRange`: field by field.
- WriterProxy timers, acknowledgement sending, liveliness and notification order: they do not touch the marks.
- SkipList.SkipList.Insert: requires a successor at level 0, a current height below the maximum and, for an absent key, a drawn level below it, because without them the code leaves its arrays or follows a null pointer; runs that append after an insert are not modelled, because it leaves the tail pointers alone.
- SkipList.SkipList.constructor: requires a maximum height of at least 1, because with 0 every walk of level 0 leaves its array.
- WriterProxy.WriterProxy.LostChangesUpdate: requires a low mark from 0 and numbers below 2^63, because the low mark starts at 0 or a stored sequence number and never falls, and the high word is an int32_t.
- BitmapRange.BitmapRange.Remove: stops where the source would leave its words; what that write does is undefined and not modelled.
- SkipList objects other than integers, and `remove`, whose body is empty.
- ReceivedChanges.ReceivedChanges.AddNumber: a single gap fits an int, because the loop counter of `insertMissingSequenceNumbers` overflows beyond that.
- Liveness and shutdown of the file watcher, the Windows branch, regular expressions and inotify calls.
- What XML loading does, environment variables, printing, signals, the GUID prefix and name derived from the server id, and participant creation of the discovery server.
- LoanableSequence.Sequence.Resize: growing only, because `length` calls it for nothing else; the max-size constructor, which sets no type support, and the defaulted moves are not modelled.
- Floating-point, wide-character and wide-string annotation values: printing floats rounds, and wide text goes through a byte conversion (src/cpp/utils/string_convert.cpp).
