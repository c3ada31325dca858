# Reference counts, tables, loopers, vectors and codecs of libutils, and an emulated condition variable

This project models the parts of Android's `libutils` in which something can go wrong that no single
function shows, and the emulated condition variable of FFmpeg's `w32pthreads.h`, and proves their properties
with Dafny 4.11. `dafny verify dfyconfig.toml` checks everything.

## What is modelled

| Files | Subject |
|---|---|
| `RefBase.dfy`, `RefBaseAlone.dfy`, `RefBaseCode.dfy`, `Counting.dfy` | strong and weak reference counts: atomic steps of any number of threads, results about all runs, what each operation does when it runs alone, and the operations as code with compare-and-swap loops that take these steps |
| `CondVar.dfy`, `CondVarProgress.dfy`, `CondVarCode.dfy` | the condition variable made of a semaphore, an event and two locks: atomic steps, results about all runs, the caller's mutex and progress, and the operations as code |
| `Probing.dfy`, `BucketTable.dfy`, `BasicHashtable.dfy`, `HashtableSharing.dfy`, `HashtableRun.dfy` | the open-addressing hash table: double hashing, the meaning of a bucket array as a multimap, the table as a class over shared storage, any number of tables sharing, and a run that loses its storage |
| `MessageQueue.dfy`, `LooperProtocol.dfy`, `LooperCode.dfy` | the looper: its message queue as a class, its timeouts, the wake protocol between the polling thread and any number of senders, and pollInner and the senders as code |
| `LinearTransform.dfy` | linear transforms of 64-bit clocks |
| `VectorImpl.dfy`, `StableSort.dfy`, `SortedVector.dfy` | copy-on-write vectors over shared buffers, stable sorting, sorted vectors |
| `BlobOrder.dfy`, `BlobFormat.dfy`, `BlobCache.dfy` | the bounded blob cache and its flattened form |
| `CodePoints.dfy`, `Unicode.dfy`, `UnicodeConverters.dfy` | UTF-8, UTF-16 and UTF-32 (sections 3 and 4 of RFC 3629, section 2 of RFC 2781) |
| `LinearAllocator.dfy` | the bump allocator |

A protocol is a state machine whose program counters stand just before one access to shared state. The code
modules `RefBaseCode`, `CondVarCode` and `LooperCode` then write the operations with fields, locals and loops; between
any two accesses the other threads make any finite number of moves, and every access must be the step the protocol
allows at that point; `visited` is the history, which every method extends. So the control flow of the code is
proved to be that of the protocol, and results about all runs of the protocol are results about the code.

For vectors and hash tables, a set (`world`) stands for all that exist; every operation keeps it coherent and
states that the items of all others are unchanged. A slot of a buffer is raw memory (`None`) or holds an item, so
destroying too much, too little or twice does not verify.

## Assumptions

The header files of `libutils` are not part of this model. Where the code relies on them, this is what is
assumed.

- `chainStart` lies in [0, count), `chainIncrement` in [1, count), `chainSeek` adds modulo count, `trimHash` has been
  applied to the hash of a key, and `edit` clones shared storage (`Hashing`, `ValidHashing`, `Edit`). `find` is
  given -1 or the index of an earlier match of the same key. The table's primes are assumed prime (`PrimeTable`).
  The load factor is an exact rational; where no prime is large enough the source reads one element past its
  table before it aborts, and the model reports `NoCapacity`.
- Reference counting: at most 2^28 - 1 strong references and INT32_MAX weak counts; the creator takes the first
  reference before sharing; from its call on, an incStrong through its plain pointer happens while the count is
  positive; and the first incStrong does not overlap a promotion's fix-up (`Races`). That last obligation is necessary, see
  `RaceSubtractsTwice`. The lifetime is fixed before sharing. Callbacks do nothing, except that
  onIncStrongAttempted may refuse.
- The cache's `Header` takes 16 bytes and an `EntryHeader` 8, the layout with 32-bit sizes, least significant byte
  first; the limits are below 2^32.
- `malloc` returns aligned blocks that overlap no page; a block passed to `realloc` is gone; items are copied in
  ascending order; moving items onto themselves leaves them as they are; memory never runs out.
- A `read` or `write` on the wake pipe is one step; `epoll_wait` may also return for other descriptors, or be
  interrupted, at any time. The clock never goes backwards.
- Right shifts, masks and conversions in the converters are exact bit-vector operations; elsewhere wrap-around is
  written out.

## Where the code does not do what one would expect

- `BasicHashtable::add` on an empty table whose tombstones fill its capacity: rehash drops the storage and the loop
  goes on without it (`Outcome.StorageDropped`, with its exact condition in `Add` and a run in
  `FillWithTombstones`).
- `BlobCache::unflatten` drops the entries but not their bytes from `mTotalSize` (`mStale`). `Clean`, `Set` and
  `Unflatten` say exactly when this leads to choosing from no entries, a division by zero; `SetUnflattenSet` is
  a run.
- A looper message due in more than (INT_MAX-1) ms leaves the thread waiting without end
  (`LongDelaySleepsForever`); the exact condition is in `WaitWithMessageEnds`.
- A linear transform refuses some results that fit (`RefusesRepresentable`); `Representable` is the exact
  condition.
- Merging a sorted vector whose end ties with the receiver's end keeps both items (`MergeAgreesUnlessTied`).
- Inserting an unshared vector, or one of its items, into itself can read memory that holds no item (`SourceRead`);
  so can merging one with itself, or with an empty receiver (`MergeSorted`).
- Inserting nothing at a position without room behind it reports NO_MEMORY although nothing is wrong
  (`InsertArrayAt`).

## Model

| member | source | states |
|---|---|---|
| `RefBase.DeletedAtMostOnceAndNeverWhileReferenced` | libutils/RefBase.cpp:337-353 | In every interleaving of any number of threads the object and its impl are deleted at most once each, the object never while a strong reference is held or in use, the impl never while any reference is |
| `RefBase.CountsAreExact` | libutils/RefBase.cpp:318-335 | In every reachable state mStrong is the number of strong holders plus one pending bias of 2^28, and mWeak is weak holders plus strong holders plus promotions in flight; the bias is removed exactly once: never twice, and it is gone whenever a thread holds a strong reference and none is about to remove it |
| `RefBase.ReleasedMeansDeleted` | libutils/RefBase.cpp:396-426 | When all references are gone, both the object and the impl have been deleted, under the strong and the weak lifetime |
| `RefBase.StepsTouchLiveMemory` | libutils/RefBase.cpp:318-603 | No legal step of any operation or of the destructor, from the read of mRefs with which a call begins, uses the impl or the object after its deletion |
| `RefBase.StrongLifetimeIsNeverRevived` | libutils/RefBase.cpp:453-481 | Under the strong lifetime a count that has reached 0 stays 0: no promotion succeeds any more |
| `RefBase.RunInv` | libutils/RefBase.cpp:428-530 | The invariant tying counts, biases, deletions and program counters holds in every state of every run |
| `RefBase.NextKeepsInv` | libutils/RefBase.cpp:428-530 | Every step of every thread, and every handing over of a reference, keeps that invariant |
| `RefBase.RaceSubtractsTwice` | libutils/RefBase.cpp:324-333 | In any state where a fix-up exchange succeeds while the first incStrong is about to subtract, the bias is subtracted twice and the count ends 2^28 below the number of strong references: the obligation on clients is needed exactly there |
| `RefBase.RaceIsReachable` | libutils/RefBase.cpp:515-527 | Such a race is reachable when the creator hands out a weak reference before its first incStrong |
| `RefBase.ObjectGoesOnTime` | libutils/RefBase.cpp:337-353 | Under the strong lifetime the object has been deleted once the count has reached 0 and nobody is about to delete it; under the weak lifetime, or before the first strong reference, it is there as long as anybody holds a reference |
| `RefBaseAlone.IncStrongAlone` | libutils/RefBase.cpp:318-335 | Alone, incStrong adds one to both counts and takes the bias away exactly if it is the first |
| `RefBaseAlone.DecStrongAlone` | libutils/RefBase.cpp:337-353 | Alone, decStrong takes one from both counts; the object goes with the last strong reference, or with the last count under the weak lifetime, and the impl with the last count |
| `RefBaseAlone.ReleaseWeakAlone` | libutils/RefBase.cpp:396-426 | Alone, giving up a weak reference takes the impl along exactly if it is the last count, and the object if it is still there |
| `RefBaseAlone.AttemptAlone` | libutils/RefBase.cpp:428-530 | Alone, a promotion succeeds under the strong lifetime exactly with a positive count, also one that is only the bias, and under the weak one exactly with strong references or the agreement of the object; then it adds one to both counts and removes the bias, and otherwise it changes nothing |
| `RefBaseAlone.AttemptWeakAlone` | libutils/RefBase.cpp:532-551 | Alone, attemptIncWeak adds a weak reference exactly if the weak count is positive |
| `RefBaseAlone.TurnsOnce` | libutils/RefBase.cpp:318-551 | An operation that runs alone has one result, so the above are what it does |
| `RefBaseCode.LegalTraceIsRun` | libutils/RefBase.cpp:318-551 | What the code below does is a run of the protocol whenever clients keep their obligations, so all results about runs apply to it |
| `RefBaseCode.WeakrefImpl.IncStrong` | libutils/RefBase.cpp:318-335 | With other threads moving between any two accesses, the code takes exactly the protocol's steps and its caller ends with one more strong reference |
| `RefBaseCode.WeakrefImpl.DecStrong` | libutils/RefBase.cpp:337-353 | The code takes the protocol's steps, including the destructor and the tail in decWeak, and gives up one strong reference |
| `RefBaseCode.WeakrefImpl.IncWeak` | libutils/RefBase.cpp:387-393 | createWeak and incWeak add one weak reference |
| `RefBaseCode.WeakrefImpl.DecWeak` | libutils/RefBase.cpp:396-426 | Gives up one count along the protocol's steps, which run the destructor or free the impl |
| `RefBaseCode.WeakrefImpl.ReleaseWeak` | libutils/RefBase.cpp:396-426 | A weak reference is given up |
| `RefBaseCode.WeakrefImpl.Destructor` | libutils/RefBase.cpp:584-603 | ~RefBase takes the protocol's steps and returns to the operation that ran it |
| `RefBaseCode.WeakrefImpl.AttemptIncStrong` | libutils/RefBase.cpp:428-530 | Returns true exactly when the caller got a strong reference. Whatever the others do it fails under the strong lifetime only if the count was not positive at some point of the call, and under the weak one only if the object does not agree; if nobody else moves, exactly the count at the call and the agreement decide. All loops end because a failed exchange means another thread moved (lock-freedom) |
| `RefBaseCode.WeakrefImpl.PromoteEasy` | libutils/RefBase.cpp:437-447 | The loop for an object with strong references ends with an incremented count exactly if the count it last met is positive and not biased |
| `RefBaseCode.WeakrefImpl.PromoteHard` | libutils/RefBase.cpp:449-498 | The harder case ends with an incremented count, or with only the weak count to give back; it succeeds under the weak lifetime exactly if the object agrees, and under the strong one it fails only if the count it started from or one it met later is not positive |
| `RefBaseCode.WeakrefImpl.Revive` | libutils/RefBase.cpp:482-494 | Under the weak lifetime the count is incremented exactly if the object agrees |
| `RefBaseCode.WeakrefImpl.PromoteFirst` | libutils/RefBase.cpp:465-481 | The loop that promotes an object that never had a strong reference fails only on a count that is not positive |
| `RefBaseCode.WeakrefImpl.FixUp` | libutils/RefBase.cpp:512-527 | The loop that removes the bias, unless another thread already has |
| `RefBaseCode.WeakrefImpl.AttemptIncWeak` | libutils/RefBase.cpp:532-551 | Returns true exactly when the caller got a weak reference, which is exactly if the weak count was positive at the point of the call that decides |
| `RefBaseCode.WeakrefImpl.CasStrong` | libutils/RefBase.cpp:440-441 | The compare-and-swap succeeds exactly when the count is as expected, and fails only if another thread has moved |
| `CondVar.QuietMeansNoTokens` | ffmpeg-3.4.1/compat/w32pthreads.h:306-394 | Whenever no signaller is active, the semaphore is 0, the event is clear and is_broadcast is not set |
| `CondVar.OnlyRegisteredWaitersTakeTokens` | ffmpeg-3.4.1/compat/w32pthreads.h:356-356 | A thread that takes a token was registered when the active signaller read the count and has taken none before: no late waiter takes one |
| `CondVar.SignalReleasesExactlyOne` | ffmpeg-3.4.1/compat/w32pthreads.h:370-394 | When signal is about to return, exactly one of the threads registered at its entry has been released and deregistered, and the others still wait; if none was registered, none was released |
| `CondVar.BroadcastReleasesAll` | ffmpeg-3.4.1/compat/w32pthreads.h:306-336 | When broadcast is about to return, every thread registered at its entry has taken a token and deregistered |
| `CondVar.BlockedSignallerHasHelper` | ffmpeg-3.4.1/compat/w32pthreads.h:386-389 | A signaller blocked on the event always has a waiter that can step |
| `CondVar.HelpersLowerRank` | ffmpeg-3.4.1/compat/w32pthreads.h:356-364 | While a signaller is blocked, every such step lowers a rank that no step raises |
| `CondVar.BlockedSignallerIsServed` | ffmpeg-3.4.1/compat/w32pthreads.h:386-389 | Over any run the helpers' steps while a signaller is blocked are bounded by the rank at its start |
| `CondVar.RunInv` | ffmpeg-3.4.1/compat/w32pthreads.h:306-394 | The invariant of locks, tokens, event and waiter count holds in every state of every run |
| `CondVar.NextKeepsInv` | ffmpeg-3.4.1/compat/w32pthreads.h:306-394 | Every step of every thread keeps it |
| `CondVarProgress.WaitGivesUpMutex` | ffmpeg-3.4.1/compat/w32pthreads.h:355-367 | In every state of every run a thread that waits for a token, or has taken one and not yet locked the mutex again, does not own the caller's mutex |
| `CondVarProgress.RegisteredBeforeMutexIsFree` | ffmpeg-3.4.1/compat/w32pthreads.h:349-356 | No lost signal: a thread in a wait holds the mutex or is registered until it has taken a token, so whoever signals with the mutex finds it counted |
| `CondVarProgress.NoDeadlock` | ffmpeg-3.4.1/compat/w32pthreads.h:306-394 | Whenever a thread is in an operation, some thread can step, unless all that are wait for a token nobody has released or for a mutex its owner keeps outside any operation |
| `CondVarProgress.SignalledWaitReturns` | ffmpeg-3.4.1/compat/w32pthreads.h:338-394 | A run: one thread waits, another takes the mutex, signals and gives it back, and the wait returns with the mutex and nothing of the signal left behind |
| `CondVarCode.WinCond.PthreadCondWait` | ffmpeg-3.4.1/compat/w32pthreads.h:338-368 | With other threads moving between any two accesses, the code takes the protocol's steps and returns with the caller's mutex held only after taking a token, without the mutex, as a waiter registered when the signaller read the count, or is blocked at a step that is not enabled |
| `CondVarCode.WinCond.PthreadCondSignal` | ffmpeg-3.4.1/compat/w32pthreads.h:370-394 | The code takes the protocol's steps and returns only after exactly one of the waiters registered at its entry was released, or none if there were none; or it is blocked at a step that is not enabled |
| `CondVarCode.WinCond.PthreadCondBroadcast` | ffmpeg-3.4.1/compat/w32pthreads.h:306-336 | The code takes the protocol's steps and returns only after all waiters registered at its entry were released and nobody is registered; or it is blocked at a step that is not enabled |
| `CondVarCode.WinCond.Register` | ffmpeg-3.4.1/compat/w32pthreads.h:349-355 | Registers and releases all three locks, the mutex of the caller among them, and then waits for a token |
| `CondVarCode.WinCond.Deregister` | ffmpeg-3.4.1/compat/w32pthreads.h:358-364 | Along the protocol's steps a released waiter deregisters and is about to take the caller's mutex, or is blocked |
| `CondVarCode.WinCond.ReleaseOne` | ffmpeg-3.4.1/compat/w32pthreads.h:379-387 | Releases one token exactly when the waiter count it read was not 0 |
| `CondVarCode.WinCond.ReleaseAll` | ffmpeg-3.4.1/compat/w32pthreads.h:317-330 | Releases the waiters exactly when the waiter count it read was not 0 |
| `Probing.PrimeDividesProduct` | libutils/BasicHashtable.cpp:136-149 | Euclid's lemma, by which a stride that is not 0 modulo a prime bucket count is invertible |
| `Probing.EveryBucketIsVisited` | libutils/BasicHashtable.cpp:136-149 | A probe chain over a prime number of buckets visits every bucket |
| `Probing.PlacesDiffer` | libutils/BasicHashtable.cpp:136-149 | and no bucket twice within one round |
| `BucketTable.InsertKeepsTable` | libutils/BasicHashtable.cpp:160-185 | Storing an entry at the first free place of its chain, with COLLISION set on the way, keeps every present entry reachable, adds exactly it to the multimap and counts a bucket unless it reuses a tombstone |
| `BucketTable.RemoveKeepsTable` | libutils/BasicHashtable.cpp:188-200 | Clearing PRESENT but not COLLISION keeps every other entry reachable and removes exactly this entry |
| `BucketTable.MarkedTable` | libutils/BasicHashtable.cpp:165-170 | Setting COLLISION along the probed buckets changes neither contents nor counts |
| `BucketTable.InsertedIs` | libutils/BasicHashtable.cpp:160-185 | Where an entry goes and what becomes of the other buckets is determined |
| `BucketTable.SameRebuilt` | libutils/BasicHashtable.cpp:213-229 | What a table is rebuilt to depends on its entries, not on its marks |
| `BucketTable.InsertedBehind` | libutils/BasicHashtable.cpp:160-185 | In a table without tombstones a new entry ends up behind all others of its hash |
| `BucketTable.MatchesFromIs` | libutils/BasicHashtable.cpp:113-150 | The search from a place of the chain meets exactly the matching buckets from there on, in chain order |
| `BucketTable.NoMatchBehind` | libutils/BasicHashtable.cpp:146-148 | Nothing matches behind a bucket whose COLLISION flag is clear, so stopping there is right |
| `BucketTable.MatchesExactly` | libutils/BasicHashtable.cpp:113-150 | The search finds something exactly when the multimap has an entry with the key |
| `BucketTable.MatchesContinue` | libutils/BasicHashtable.cpp:136-145 | Searching on from a match yields exactly the matches after it |
| `BucketTable.EmptyBehindMatch` | libutils/BasicHashtable.cpp:136-149 | A bucket neither present nor a tombstone lies behind every match of the chain, so the search ends |
| `BasicHashtable.DetermineCapacity` | libutils/BasicHashtable.cpp:324-340 | Finds the first table prime above the minimum divided by the load factor, and fails exactly when there is none |
| `BasicHashtable.NeededIsLeast` | libutils/BasicHashtable.cpp:329-329 | The number of buckets asked for is the least one of which all but one have room for the minimum at the load factor |
| `BasicHashtable.FitsIs` | libutils/BasicHashtable.cpp:324-340 | The bucket count is the first table prime that is enough, and the capacity the load factor's share of all buckets but one, rounded up; there is none exactly if no table prime is enough |
| `BasicHashtable.FitsBounds` | libutils/BasicHashtable.cpp:324-340 | The capacity covers the minimum, is positive and leaves at least one bucket free |
| `BasicHashtable.PrimesAtLeastDouble` | libutils/BasicHashtable.cpp:288-322 | Each table prime is at least twice every smaller one |
| `BasicHashtable.Storage.Release` | libutils/BasicHashtable.cpp:258-264 | The entries are destroyed exactly when the last owner lets go |
| `BasicHashtable.Storage.DestroyBuckets` | libutils/BasicHashtable.cpp:266-275 | Exactly the present entries are destroyed |
| `BasicHashtable.FreeBucket` | libutils/BasicHashtable.cpp:160-171 | Follows the chain to its first free bucket, marking exactly the buckets before it; the loop ends because one bucket is neither present nor marked |
| `BasicHashtable.MoveEntries` | libutils/BasicHashtable.cpp:213-229 | Rebuilds the same multimap in the new buckets, with no tombstones: each entry, in order, at the first free bucket of its chain, so that entries of equal hash are met in the order of their old buckets |
| `BasicHashtable.Hashtable.Edit` | libutils/BasicHashtable.cpp:277-287 | Copy on write: afterwards this table owns its storage alone with the same buckets, and the buckets of other owners are as before |
| `BasicHashtable.Hashtable.Find` | libutils/BasicHashtable.cpp:113-150 | Returns the first matching bucket of the chain, or of the part behind the given match, or -1 if there is none |
| `BasicHashtable.Hashtable.FindIsExact` | libutils/BasicHashtable.cpp:113-150 | Find succeeds exactly when the multimap holds the key |
| `BasicHashtable.Hashtable.FindEnumerates` | libutils/BasicHashtable.cpp:113-150 | Repeated find from the last index enumerates all entries of the key |
| `BasicHashtable.Hashtable.Next` | libutils/BasicHashtable.cpp:101-111 | The first present bucket behind the index, or -1 |
| `BasicHashtable.Hashtable.Add` | libutils/BasicHashtable.cpp:152-186 | Adds exactly the entry to the multimap, at the first free bucket of its chain and with COLLISION set on the buckets before it, in the old table or in the rebuilt one; it grows at most once and to at least double the capacity, drops the storage exactly when it must grow an empty table, and aborts exactly when no table prime is large enough |
| `BasicHashtable.Hashtable.TryStore` | libutils/BasicHashtable.cpp:160-185 | One round of the loop stores the entry exactly when the table need not grow first |
| `BasicHashtable.Hashtable.Grow` | libutils/BasicHashtable.cpp:176-178 | The rehash of add at least doubles the capacity and leaves room |
| `BasicHashtable.Hashtable.RemoveAt` | libutils/BasicHashtable.cpp:188-200 | Removes exactly the entry of the bucket; shared storage is copied first |
| `BasicHashtable.Hashtable.Rehash` | libutils/BasicHashtable.cpp:202-243 | Keeps the multimap, gives the requested load factor and capacity, and leaves other owners' buckets alone |
| `BasicHashtable.Hashtable.MoveStorage` | libutils/BasicHashtable.cpp:210-239 | Replaces the storage, by none if the table is empty |
| `BasicHashtable.Hashtable.Clear` | libutils/BasicHashtable.cpp:81-99 | Empties the table in place if it owns its storage alone, otherwise lets go of it |
| `BasicHashtable.Hashtable.GrowWhen` | libutils/BasicHashtable.cpp:174-178 | add must grow exactly when the first free bucket of the chain is no tombstone and the capacity is used up |
| `BasicHashtable.TombstonesCanFillCapacity` | libutils/BasicHashtable.cpp:232-236 | A well-formed empty table whose tombstones fill its capacity, on which add drops the storage it goes on to use, for every hashing that starts a chain at bucket 3 |
| `HashtableRun.AddFails` | libutils/BasicHashtable.cpp:174-178 | On any empty table of five buckets with three tombstones, an add whose chain starts elsewhere drops the storage |
| `HashtableRun.FillWithTombstones` | libutils/BasicHashtable.cpp:152-243 | Five adds and five removals on a new table lead to such a state, and the next add drops the storage |
| `HashtableSharing.OnlyOwner` | libutils/BasicHashtable.cpp:277-287 | Storage with one owner is used by no other table |
| `HashtableSharing.PerformIn` | libutils/BasicHashtable.cpp:81-243 | Over any operation on any of a set of tables, every owner count stays the number of tables sharing the storage and no other table changes; its own table gains, loses or keeps exactly what the operation says, failing to add exactly if it must grow and is empty or can not |
| `HashtableSharing.CopyIn` | libutils/BasicHashtable.cpp:35-44 | A copy shares the storage, and leaves all other tables as they are |
| `HashtableSharing.DisposeIn` | libutils/BasicHashtable.cpp:49-53 | A table that goes destroys the entries exactly if no other table shares its storage, and leaves all others as they are |
| `LooperProtocol.WaitWithMessageEnds` | libutils/Looper.cpp:204-228 | No lost wake-up: a wait with a message queued has a byte in the pipe, a sender about to write, or a deadline less than a millisecond after the time to the message; it has no deadline of its own exactly if the caller gave none and the delay is unrepresentable |
| `LooperProtocol.MessageIsDeliveredInTime` | libutils/Looper.cpp:204-316 | A wait bounded by the message at the head alone leads to its delivery when it is due, or less than a millisecond later than the wait was late |
| `LooperProtocol.TimeOutIsNotEarly` | libutils/Looper.cpp:204-213 | A wait bounded only by messages does not time out before the noted message is due |
| `LooperProtocol.DeliveryIsOrdered` | libutils/Looper.cpp:282-316 | No message is delivered early, and deliveries are in the order of time and then of sending unless the later message was sent only after the earlier was delivered |
| `LooperProtocol.MessagesAreConserved` | libutils/Looper.cpp:500-567 | Every message sent is queued, removed or delivered, exactly once |
| `LooperProtocol.RunInv` | libutils/Looper.cpp:195-316 | These invariants hold in every state of every run, with the wake skipped while a message is being sent |
| `LooperProtocol.NextKeepsInv` | libutils/Looper.cpp:500-532 | Every step of the polling thread and of any sender keeps them |
| `LooperProtocol.LongDelaySleepsForever` | libutils/Looper.cpp:204-213 | A reachable run in which a message due in more than (INT_MAX-1) ms leaves the thread in a wait without end |
| `LooperCode.Looper.PollInner` | libutils/Looper.cpp:195-316 | With senders, other callers of wake and handlers making any moves between any two accesses, the code takes exactly the protocol's steps and returns if its wait does; then it is not sending, the queue is empty with no wake-up time noted or the one noted is that of its head, and no message due by then is left |
| `LooperCode.Looper.AdjustTimeout` | libutils/Looper.cpp:203-213 | The next wake-up time is read without the lock; the timeout is the one the protocol waits for |
| `LooperCode.Looper.EpollWait` | libutils/Looper.cpp:226-228 | The wait ends with a readable pipe, at its deadline, or for another reason |
| `LooperCode.Looper.Awoken` | libutils/Looper.cpp:385-396 | The drain loop, with bytes still arriving, ends, leaves the pipe empty and the looper about to dispatch |
| `LooperCode.Looper.TakeHead` | libutils/Looper.cpp:282-316 | With the lock held: hands over the head exactly if it is due, otherwise notes its time |
| `LooperCode.Looper.DispatchOne` | libutils/Looper.cpp:282-316 | Each round either ends the loop or uses up a message or a move of the others, so the loop ends |
| `LooperCode.Looper.SendMessageAtTime` | libutils/Looper.cpp:500-532 | A sender, with all others moving between its accesses, takes the protocol's steps: the message is queued in its place, and a byte is written exactly if it is due before all queued messages and no message is being sent |
| `LooperCode.Looper.RemoveMessages` | libutils/Looper.cpp:534-567 | Removes exactly the messages of the handler, or of one kind of it, as one step of the protocol |
| `LooperCode.Looper.WriteByte` | libutils/Looper.cpp:368-383 | The write of wake ends with a byte in the pipe, also if it fails because the pipe is full |
| `LooperCode.Looper.WakeUp` | libutils/Looper.cpp:368-383 | A call of wake from outside takes the protocol's steps and ends with a byte in the pipe |
| `MessageQueue.Queue.SendMessageAtTime` | libutils/Looper.cpp:500-532 | Inserts behind all messages that are due no later, and wakes exactly when the message became the head and no message is being sent |
| `MessageQueue.Queue.RemoveMessages` | libutils/Looper.cpp:534-567 | Keeps exactly the messages that do not match, in order |
| `MessageQueue.Queue.TakeDue` | libutils/Looper.cpp:284-315 | Takes the head exactly when it is due, otherwise notes when it will be |
| `MessageQueue.EnqueueKeepsOrder` | libutils/Looper.cpp:510-519 | The queue stays ordered by time and then by sending |
| `MessageQueue.EnqueueAdds` | libutils/Looper.cpp:510-519 | Insertion adds exactly the message, at the head exactly when it is due before all others |
| `MessageQueue.WithoutIs` | libutils/Looper.cpp:534-567 | Removal keeps exactly the others and their order |
| `MessageQueue.PollTimeout` | libutils/Looper.cpp:203-213 | The timeout is the caller's cut to the time to the next message, rounded up; it is infinite exactly when both are |
| `MessageQueue.ToMillisecondTimeoutDelay` | libutils/Timers.cpp:58-72 | Rounds up to milliseconds, 0 exactly when due, -1 exactly when the delay exceeds (INT_MAX-1) ms |
| `LinearTransform.ScaleU64` | libutils/LinearTransform.cpp:29-110 | The two-step 96-bit division computes the exact floor or ceiling, and fails exactly when it is 2^64 or more |
| `LinearTransform.LongDivision` | libutils/LinearTransform.cpp:82-94 | Dividing one 32-bit digit at a time gives quotient and remainder of the whole |
| `LinearTransform.AddOffset` | libutils/LinearTransform.cpp:147-182 | Adds the offset and detects over- and underflow exactly, but for the two INT64_MIN cases of the branch with the top bit set |
| `LinearTransform.LinearTransformS64` | libutils/LinearTransform.cpp:112-185 | Returns exactly basis2 + floor((val-basis1)*N/D), or the inverted fraction, and fails exactly when that does not fit or one of the INT64_MIN cases applies |
| `LinearTransform.TransformIs` | libutils/LinearTransform.cpp:112-185 | Said without the division: with r the quotient rounded down whatever the signs, the result is the offset plus r; it fails exactly if the sum does not fit, or if r does not fit and the sum or the offset is INT64_MIN |
| `LinearTransform.MagnitudeRoundsDown` | libutils/LinearTransform.cpp:127-145 | Rounding the magnitude up when the result is negative rounds the result down |
| `LinearTransform.DoForwardTransform` | libutils/LinearTransform.cpp:187-198 | Computes the forward transform, failing when the denominator is 0 |
| `LinearTransform.DoReverseTransform` | libutils/LinearTransform.cpp:200-211 | Computes the reverse transform, failing when the numerator is 0 |
| `LinearTransform.RefusesRepresentable` | libutils/LinearTransform.cpp:147-160 | A transform with an exact result of 0 that is refused because the offset is INT64_MIN |
| `LinearTransform.ForwardThenReverse` | libutils/LinearTransform.cpp:187-211 | Forward then reverse misses the input by 0 <= x-z < D/N + 1 for N > 0 and 0 <= z-x < D/abs(N) for N < 0 |
| `LinearTransform.ExactRoundTrip` | libutils/LinearTransform.cpp:187-211 | For N > 0 the round trip is exact if and only if the forward division is |
| `LinearTransform.GcdIsGreatest` | libutils/LinearTransform.cpp:226-247 | The number Euclid's method computes divides both and every common divisor divides it |
| `LinearTransform.ReduceUnsigned` | libutils/LinearTransform.cpp:213-248 | Divides both numbers by their greatest common divisor |
| `LinearTransform.ReducedIsCoprime` | libutils/LinearTransform.cpp:213-248 | The reduced pair has no common divisor but 1 |
| `LinearTransform.ReduceSigned` | libutils/LinearTransform.cpp:253-263 | The signed version does the same to abs(N) and D and keeps the sign, also for INT32_MIN |
| `LinearTransform.ReduceKeepsTransform` | libutils/LinearTransform.cpp:187-263 | Reducing the fraction leaves every forward and reverse result and failure unchanged |
| `VectorImpl.Vector.ReleaseStorage` | libutils/VectorImpl.cpp:356-365 | Counts of all buffers stay the number of vectors sharing them, other vectors keep their items, and the items of the buffer are destroyed exactly when its last owner lets go |
| `VectorImpl.Vector.Assign` | libutils/VectorImpl.cpp:67-83 | Both vectors have the items of the right-hand side in one shared buffer, the items of the old one are destroyed exactly if nobody else owns it; all other vectors keep theirs |
| `VectorImpl.Vector.EditArrayImpl` | libutils/VectorImpl.cpp:85-99 | Afterwards this vector is the only owner, with the same items and capacity; other vectors keep theirs |
| `VectorImpl.Vector.Grow` | libutils/VectorImpl.cpp:367-415 | Opens a gap of raw memory at the position, with the 3n+1 over 2 growth rule; other vectors keep their items |
| `VectorImpl.Vector.Shrink` | libutils/VectorImpl.cpp:417-466 | Removes exactly the items, with the shrink rule, in place if it is the only owner and need not shrink; other vectors keep their items |
| `VectorImpl.Vector.InsertArrayAt` | libutils/VectorImpl.cpp:119-153 | Inserts the items of an array, or one of them repeatedly, at the position, or reports a bad index; inserting nothing where there is no room reports no memory. The array may be the buffer of any vector: what is inserted is exactly what is read after making room |
| `VectorImpl.SourceRead` | libutils/VectorImpl.cpp:124-153 | What is read is what was there at the call, unless the array is the buffer of this vector and of it alone and the items do not all lie before the position with room to spare; then it is raw memory, the item just inserted, or items moved up |
| `VectorImpl.Vector.FillGap` | libutils/VectorImpl.cpp:128-130 | Copying into the gap, in order, reads each slot as it is by then |
| `VectorImpl.Vector.InsertAt` | libutils/VectorImpl.cpp:139-153 | Inserts one item that is not in the vector, in place if it is the only owner and has room |
| `VectorImpl.Vector.RemoveItemsAt` | libutils/VectorImpl.cpp:272-282 | Removes exactly the items, or reports a bad value and changes nothing |
| `VectorImpl.Vector.ReplaceAt` | libutils/VectorImpl.cpp:249-270 | Replaces exactly one item, or reports a bad index |
| `VectorImpl.Vector.SetCapacity` | libutils/VectorImpl.cpp:326-344 | Keeps the items and sets the capacity, unless it would not hold them, when nothing changes |
| `VectorImpl.Vector.Push` | libutils/VectorImpl.cpp:224-242 | Appends the item; unshared, it copies items only when it grows |
| `VectorImpl.Vector.Pop` | libutils/VectorImpl.cpp:218-222 | Drops the last item; unshared, it copies items only when it shrinks the buffer |
| `VectorImpl.Vector.Run` | libutils/VectorImpl.cpp:367-466 | Any run of pushes and pops on an unshared vector yields the expected items, copies at most four items per operation and the potential the vector started with (0 when new), and leaves all other vectors alone |
| `VectorImpl.Vector.Operate` | libutils/VectorImpl.cpp:367-466 | One push or pop is paid for by 4 and the change of the potential, and keeps the vector unshared |
| `VectorImpl.GrowthRule` | libutils/VectorImpl.cpp:377-378 | A buffer too small is replaced by the least one of at least four slots and half again as many as items |
| `VectorImpl.ShrinkRule` | libutils/VectorImpl.cpp:431-432 | A buffer less than a third full is replaced by one of twice as many slots as items, at least four |
| `VectorImpl.PushIsCheap` | libutils/VectorImpl.cpp:377-378 | One push costs at most 4 against the potential, and the capacity stays sufficient |
| `VectorImpl.PopIsCheap` | libutils/VectorImpl.cpp:431-432 | One pop costs at most 4 against the potential, and the capacity stays sufficient |
| `VectorImpl.Vector.Sort` | libutils/VectorImpl.cpp:165-216 | The in-place insertion sort computes the specified arrangement; a vector already in order keeps its buffer even if it is shared; other vectors keep their items |
| `VectorImpl.Vector.SortRound` | libutils/VectorImpl.cpp:174-208 | One round moves an item less than its predecessor to its place, and takes ownership first if none has moved before |
| `VectorImpl.SplicedThenCut` | libutils/VectorImpl.cpp:119-131 | What was inserted is at the position, nothing before it has moved, and removing it restores the vector |
| `VectorImpl.CutThenSpliced` | libutils/VectorImpl.cpp:272-282 | Inserting again what was removed restores the vector |
| `VectorImpl.InsertSlot` | libutils/VectorImpl.cpp:192-205 | The inner loop moves one item down to its place among the sorted ones |
| `VectorImpl.Vector.OthersUseOthers` | libutils/VectorImpl.cpp:45-56 | An unshared buffer is used by no other vector |
| `VectorImpl.RemoveSlots` | libutils/VectorImpl.cpp:457-463 | Destroys the items and closes the gap |
| `VectorImpl.OpenSlots` | libutils/VectorImpl.cpp:405-409 | Moves the items behind the position up |
| `VectorImpl.MoveForward` | libutils/VectorImpl.cpp:405-409 | Moving overlapping items up keeps all of them |
| `VectorImpl.MoveBackward` | libutils/VectorImpl.cpp:460-463 | Moving overlapping items down keeps all of them |
| `StableSort.SortIsStable` | libutils/VectorImpl.cpp:165-216 | For every total preorder the result is sorted, a permutation, and keeps the order of equivalent items |
| `StableSort.StableSortIsUnique` | libutils/VectorImpl.cpp:165-216 | There is only one sorted arrangement with that order of equivalent items |
| `SortedVector.IndexOrderOf` | libutils/VectorImpl.cpp:540-564 | Binary search returns the equivalent item, or -1, and the place where one belongs |
| `SortedVector.LowerBoundIs` | libutils/VectorImpl.cpp:540-564 | All items before that place are less, none behind it is |
| `SortedVector.Add` | libutils/VectorImpl.cpp:566-576 | Adds the item at its place or replaces the equivalent one |
| `SortedVector.AddKeepsIncreasing` | libutils/VectorImpl.cpp:566-576 | The vector stays strictly increasing |
| `SortedVector.AddHolds` | libutils/VectorImpl.cpp:566-576 | The result holds the item and exactly the old items not equivalent to it |
| `SortedVector.IncreasingIsUnique` | libutils/VectorImpl.cpp:566-576 | A strictly increasing vector is determined by the set of its items, so add refines a sorted set |
| `SortedVector.MergeItems` | libutils/VectorImpl.cpp:578-593 | Merging with any vector, also with itself, adds its items one by one |
| `SortedVector.AddAllHolds` | libutils/VectorImpl.cpp:578-593 | An item-wise merge holds exactly the items of the other vector that no later one of it is equivalent to, and the old items none of them is equivalent to: an equivalent item is replaced |
| `SortedVector.AddAllIsUnique` | libutils/VectorImpl.cpp:578-593 | No other strictly increasing vector holds exactly those |
| `SortedVector.AddAllOwn` | libutils/VectorImpl.cpp:578-593 | Merging a sorted vector with itself item by item changes nothing |
| `SortedVector.MergeSorted` | libutils/VectorImpl.cpp:595-611 | Merging with a sorted vector, also with itself, takes one of the two fast paths or adds one by one; it reads memory that holds no item exactly if the receiver is empty and the other is not, or if an unshared vector of one item is merged with itself |
| `SortedVector.MergeAgreesUnlessTied` | libutils/VectorImpl.cpp:595-611 | The fast paths agree with adding one by one if and only if the ends do not tie |
| `SortedVector.TiedMergeKeepsAll` | libutils/VectorImpl.cpp:595-611 | If the ends tie, a fast path keeps all items of both vectors, in order, equivalent ones next to each other |
| `SortedVector.Remove` | libutils/VectorImpl.cpp:613-620 | Takes out the equivalent item, if there is one, and says where it was |
| `SortedVector.InsertVectorAt` | libutils/VectorImpl.cpp:109-117 | Inserts the items of a vector at the position, or reports a bad index; an unshared vector inserted into itself keeps its items readable exactly at its end with room to spare |
| `VectorImpl.SharedBuffer.Acquire` | libutils/SharedBuffer.cpp:96-98 | One more owner |
| `VectorImpl.SharedBuffer.Release` | libutils/SharedBuffer.cpp:100-110 | One owner less; returns the previous count |
| `VectorImpl.Vector.Reallocate` | libutils/SharedBuffer.cpp:45-76 | Moves the first items to a new buffer of the given size and leaves the old one to its other owners |
| `BlobOrder.CompareIsTotalPreorder` | libutils/BlobCache.cpp:311-317 | Comparing blobs by size and then by bytes is a total order on keys |
| `BlobOrder.BlobLessIs` | libutils/BlobCache.cpp:311-317 | The shorter blob is less, and of two equally long ones that with the lesser byte where they first differ |
| `BlobOrder.CompareIs` | libutils/BlobCache.cpp:340-342 | Entries compare equal exactly when their keys are equal |
| `BlobCache.Cache.Set` | libutils/BlobCache.cpp:54-131 | Stores exactly the entry when it fits, else cleans and tries again, and gives up only if it does not fit after that, so an entry of at most half the limit is always stored; never exceeds the limit, keeps mTotalSize exact, and fails by choosing from no entries exactly when bytes of dropped entries exceed half the limit |
| `BlobCache.Cache.Get` | libutils/BlobCache.cpp:133-160 | Returns the most recently stored value for the key or misses, and writes to the buffer only if the value fits |
| `BlobCache.Cache.Clean` | libutils/BlobCache.cpp:281-290 | Whatever the random choices, ends with at most half the limit and only old entries, and before the last removal counted more than that; chooses from no entries exactly when bytes of dropped entries exceed half the limit |
| `BlobCache.Cache.GetFlattenedSize` | libutils/BlobCache.cpp:166-177 | The size of the flattened form |
| `BlobCache.Cache.Flatten` | libutils/BlobCache.cpp:179-219 | Succeeds exactly when the buffer has the flattened size, and then writes the header and every record |
| `BlobCache.Cache.Unflatten` | libutils/BlobCache.cpp:221-271 | Reports a bad value exactly when the buffer does not decode; divides by zero exactly when the bytes counted before exceed half the limit and some acceptable entry does not fit behind its predecessors; as long as all fit, the cache ends with exactly the entries read, and a fresh cache with exactly the decoded ones |
| `BlobCache.Cache.SetEntries` | libutils/BlobCache.cpp:244-270 | The loop over the records, with the same results |
| `BlobCache.Cache.StorableFits` | libutils/BlobCache.cpp:263-264 | Entries that fit together are all stored, in their order |
| `BlobCache.Cache.StoredAllMerges` | libutils/BlobCache.cpp:263-264 | Setting the entries read amounts to an item-wise merge of the acceptable ones, so of equal keys the last one stays |
| `BlobCache.Cache.FitAllIs` | libutils/BlobCache.cpp:263-264 | All fit exactly if after each acceptable entry what is stored and the bytes of dropped entries are within the limit |
| `BlobCache.SetUnflattenSet` | libutils/BlobCache.cpp:221-290 | Storing an entry in a fresh cache, unflattening nothing and storing it again divides by zero exactly if the entry takes more than half the limit |
| `BlobCache.FlattenedCacheIsRestored` | libutils/BlobCache.cpp:179-271 | What flatten wrote decodes to exactly the entries, and a cache with the same limits stores them all without cleaning |
| `BlobCache.HasIs` | libutils/BlobCache.cpp:75-75 | An entry is found exactly when its key occurs |
| `BlobCache.TotalOfAdd` | libutils/BlobCache.cpp:82-112 | How storing an entry changes the total size |
| `BlobFormat.DecodeOfEncoded` | libutils/BlobCache.cpp:233-269 | Decoding the flattened form gives back the entries, whatever the bytes between records are |
| `BlobFormat.DecodeIs` | libutils/BlobCache.cpp:221-271 | A buffer decodes to the entries of which it is the flattened form, or to none at all if it is of another version; every other buffer is an error |
| `BlobFormat.ReadEntriesAre` | libutils/BlobCache.cpp:242-269 | What is read are the records one behind the other, up to the number announced or to where no record is, also in a buffer that ends too early |
| `BlobFormat.RecordsAreDisjoint` | libutils/BlobCache.cpp:192-215 | Records are 4-aligned and do not overlap |
| `BlobFormat.RecordFits` | libutils/BlobCache.cpp:166-177 | Every record ends within the flattened size |
| `BlobFormat.WriteRecord` | libutils/BlobCache.cpp:205-213 | Writes one record and leaves everything before it |
| `BlobFormat.WriteHeader` | libutils/BlobCache.cpp:185-189 | Writes the header |
| `CodePoints.Utf32At` | libutils/Unicode.cpp:135-157 | Reads the code point spelled by the leading ones of the first byte, whether or not char is signed |
| `CodePoints.DecodeOfEncode` | libutils/Unicode.cpp:79-115 | Both UTF-8 decoders read back the encoding of every scalar value, whatever follows it |
| `CodePoints.EncodingIsUtf8` | libutils/Unicode.cpp:79-115 | What is written for a scalar value is one character of UTF-8 by section 4 of RFC 3629: continuation bytes are marked, the form is the shortest, no surrogate |
| `CodePoints.Utf8IsEncoding` | libutils/Unicode.cpp:79-115 | and every such character is written for the scalar value it is decoded to |
| `CodePoints.PayloadValue` | libutils/Unicode.cpp:489-517 | For any bytes both decoders yield the number the payload bits spell, whatever the marks of the bytes behind the lead |
| `CodePoints.DecodersAgree` | libutils/Unicode.cpp:135-157 | The two decoders agree on length and value if and only if the lead byte is neither a continuation byte nor announces more than four bytes |
| `CodePoints.CodepointLength` | libutils/Unicode.cpp:436-439 | The packed table gives 1 to 4 by the leading bits |
| `CodePoints.PairRoundTrip` | libutils/Unicode.cpp:340-345 | A surrogate pair yields one code point beyond the basic plane, whose units are that pair |
| `CodePoints.PairValue` | libutils/Unicode.cpp:340-345 | The value of a pair is the number section 2.2 of RFC 2781 gives |
| `CodePoints.UnitsOfPair` | libutils/Unicode.cpp:559-564 | and every code point beyond the basic plane is written as such a pair |
| `Unicode.Utf32RoundTrip` | libutils/Unicode.cpp:191-206 | UTF-32 to UTF-8 and back drops just the values that are no scalar values |
| `Unicode.Utf16RoundTrip` | libutils/Unicode.cpp:333-357 | UTF-16 with paired surrogates to UTF-8 and back drops just the lone low surrogates |
| `Unicode.WellFormedRoundTrip` | libutils/Unicode.cpp:545-569 | Well-formed UTF-16 survives the way to UTF-8 and back unchanged |
| `Unicode.DecodersAgreeOnStrings` | libutils/Unicode.cpp:472-517 | On framed bytes with proper lead bytes both decoders give the same code points |
| `Unicode.Utf32GivesWellFormed` | libutils/Unicode.cpp:191-206 | All UTF-8 made from UTF-32 is a sequence of characters of UTF-8, whatever the code points |
| `Unicode.Utf16GivesWellFormed` | libutils/Unicode.cpp:333-357 | and so is all UTF-8 made from UTF-16 |
| `Unicode.Utf8RoundTrip` | libutils/Unicode.cpp:472-487 | Well-formed UTF-8 survives the way to UTF-32 and back, and yields scalar values only |
| `Unicode.WellFormedIsClean` | libutils/Unicode.cpp:472-517 | Both decoders agree on all well-formed UTF-8 |
| `Unicode.EncodingIsClean` | libutils/Unicode.cpp:191-206 | All UTF-8 the library writes is of that kind |
| `UnicodeConverters.ConvertUtf32ToUtf8` | libutils/Unicode.cpp:191-206 | Writes the encoding and a terminator, and nothing at all for an empty source |
| `UnicodeConverters.Utf32CodepointToUtf8` | libutils/Unicode.cpp:105-115 | Writes exactly the bytes of one code point, last to first |
| `UnicodeConverters.Utf32ToUtf8Length` | libutils/Unicode.cpp:177-189 | Exactly the number of bytes the converter writes, for any UTF-32 |
| `UnicodeConverters.ConvertUtf16ToUtf8` | libutils/Unicode.cpp:333-357 | Writes the encoding and a terminator |
| `UnicodeConverters.Utf16ToUtf8Length` | libutils/Unicode.cpp:406-425 | Exactly the number of bytes the converter writes, for paired surrogates |
| `UnicodeConverters.ConvertUtf8ToUtf16NoTerminator` | libutils/Unicode.cpp:545-569 | Writes the units and returns their end |
| `UnicodeConverters.ConvertUtf8ToUtf16` | libutils/Unicode.cpp:571-574 | Writes the units and a terminator |
| `UnicodeConverters.Utf8ToUtf16Length` | libutils/Unicode.cpp:519-543 | Exactly the number of units the converter writes, or -1 exactly if the last code point is cut off |
| `UnicodeConverters.ConvertUtf8ToUtf32` | libutils/Unicode.cpp:472-487 | Writes the code points and a terminator |
| `UnicodeConverters.Utf8ToUtf32Length` | libutils/Unicode.cpp:447-470 | Exactly the number of code points, for framed bytes |
| `UnicodeConverters.CountLeadingOnes` | libutils/Unicode.cpp:463-466 | Counts the bytes of one code point |
| `UnicodeConverters.ConvertUtf8ToUtf16N` | libutils/Unicode.cpp:576-604 | Writes the longest run of whole code points that fits and returns its end |
| `UnicodeConverters.FitIsLongest` | libutils/Unicode.cpp:576-604 | That run is whole, and every whole run that fits is no longer: half a surrogate pair is never counted |
| `LinearAllocator.Allocator.Alloc` | libutils/LinearAllocator.cpp:163-181 | Returns an aligned range inside one page that overlaps no range handed out before: the next room of the current page if that is enough, else the start of a new current page of twice the size up to the maximum, or for a size above the waste limit a page of its own in front |
| `LinearAllocator.Allocator.AllocDedicated` | libutils/LinearAllocator.cpp:166-175 | A large allocation gets a page of its own at the front of the list |
| `LinearAllocator.Allocator.EnsureNext` | libutils/LinearAllocator.cpp:144-161 | Afterwards the size fits in the current page, which is the tail of the list and new, of twice the size up to the maximum, if it did not fit before |
| `LinearAllocator.Allocator.PushFront` | libutils/LinearAllocator.cpp:170-174 | Adding a page at the front keeps the current page at the tail and all ranges in place |
| `LinearAllocator.Allocator.PushCurrent` | libutils/LinearAllocator.cpp:151-158 | Adding a page at the end makes it the current one |
| `LinearAllocator.Allocator.Bump` | libutils/LinearAllocator.cpp:177-180 | Takes the size from the front of the free tail |
| `LinearAllocator.Allocator.RewindIfLastAlloc` | libutils/LinearAllocator.cpp:183-192 | For any pointer and size: gives back what was handed out from the pointer on exactly if the size ends where the free tail begins, which for a range handed out is exactly that range; otherwise changes nothing |
| `LinearAllocator.Allocator.Destroy` | libutils/LinearAllocator.cpp:121-130 | The destructor frees every page exactly once |
| `LinearAllocator.AlignSum` | libutils/LinearAllocator.cpp:51-52 | Aligning behind an aligned address aligns the offset, so a page starts at its address plus the aligned header |

## Left out

- forceIncStrong, the debug tracking of references, call stacks, logging and statistics.
- Changing the lifetime of an object after it is shared, and OBJECT_LIFETIME_FOREVER.
- The native Windows paths of `w32pthreads.h`, and the timed wait of `Threads.cpp`.
- Spurious failures of a compare-and-swap: an exchange in the model fails only if the count differs.
- setTo of the hash table, which only releases and shares storage as dispose and the copy constructor do.
- Floating-point rounding in determineCapacity; the primality of the table's primes.
- The looper's descriptor table, its response callbacks, pollOnce and pollAll.
- The copies counted for push and pop are those of unshared vectors; resize, clear and finish_vector are instances of the modelled operations.
- BlobCache.Cache.Unflatten: does not say which entries remain once it has cleaned, which depends on the random choices.
- VectorImpl.Vector.InsertAt: the item is outside the vector; an item of the vector itself is InsertArrayAt with its buffer as the array. Items constructed by default are not modelled.
- SortedVector.MergeSorted: with an empty receiver it ends at the comparison with the first item that is not there.
- Overflow of size_t in sums of sizes, and of off_t in flatten and unflatten.
- UnicodeConverters.Utf8ToUtf16Length: a code point cut off by the end is not decoded, where the source reads up to three bytes past the end before it returns -1.
- CodePoints.Utf32At: does not model lead bytes 0xFE and 0xFF, for which the source shifts by more than the width of the word.
- utf8_length, the string functions of `Unicode.cpp` and the byte-order comparisons.
- mTotalAllocated, mWastedSpace and the page counters of the allocator, which are statistics.
- RefBase.RunInv: states the protocol on values, one step per access; the fields changed in place are in RefBaseCode.
- The rest of the repository: FFmpeg's tools call library functions that are not part of this model, and the other files of `libutils` have no property that spans operations.
