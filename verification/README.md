# A verified model of the dictionary, the thread pools, fragment reassembly and two small libraries

The project models five parts of the repository and proves what they promise. Everything is
Dafny 4.11; `dafny verify dfyconfig.toml` checks it.

**The `im_` dictionary** (`Primes`, `ProbeTable`, `Store`, `Serialize`, `Relocation`, `Ownership`,
`Dictionary`, `DictionaryLaws`, `Vectors`). An open-addressing hash table probes position `h + k*k`
modulo a prime, keeps keyed tombstones and rehashes by load. Values are inline, in an allocation of their own, or attached in a
trailing region of raw memory, and nest as dictionaries and vectors. The proofs go from Euclid's
lemma to the probe bound, from the probe bound to a finite map, and from the memory layout to the
main results:

- every run of set, delete, clear, get and serialize, in any order and of any length, answers like
  a finite map (`Dictionary.Run`); in a caller's terms, reading a key finds what was last stored
  under a key with the same first 102 characters and not touched since (`DictionaryLaws.RunThenGet`);
- serialization keeps the meaning of the whole tree at every depth, yields one packed block, and
  does nothing to a block that is packed already (`Serialize.SerializeObj`,
  `Serialize.PackedLayout`);
- read elsewhere from its cells alone, with every allocation of its origin gone, the block still
  means the same, which is so exactly of blocks that own nothing (`Relocation.SerializeAndMove`,
  `Relocation.RelocatableIffOwnsNothing`);
- every allocation is owned once or has been freed once (`Dictionary.Run` with
  `Ownership.OwnedOrFreedOnce`); once the dictionary is destroyed, each was freed exactly once but
  for what the caller still keeps, such as refused handles (`Dictionary.Lifetime`).

**The Ceph thread pools** (`ThreadPool`, `QueueRemoval`, `PoolHistory`, `WorkQueueVal`,
`WorkQueueHistory`, `ShardedPool`, `ShardedHistory`). Each is a state machine whose step is one region under a lock; a condition wait is a release followed by another
step at any time, so spurious wakeups are included. The invariants are inductive and the results
hold of every state of every run: pause excludes work, drain is complete, each thread is joined
once, dispatch bypasses a waiting queue a bounded number of times. The history modules say the same
of the actions of a run alone: every count, flag, list and record is what the actions so far make
it, and what was given to a queue is conserved item by item (`PoolHistory.ItemsAreConserved`). The assertions that workers and
unpause make never fire; the one in a queue's destructor can, and `QueueRemoval` says exactly when.

**Bancscard reassembly** (`Reassembly`, `Numerals`, `ReassemblyLaws`, `Cutting`) on the same probe table: whatever the order in
which the fragments of a message arrive, and whatever arrives in between, the last of them yields
the whole message, on the table itself (`Reassembly.Reassembler.Receive`). `ReassemblyLaws` writes
the answers out in the flags, positions and digits of the wire format. `Cutting` is a sender for
it, down to the bytes of the header fields, and proves that cutting and delivering in any order
gives the message back.

**The circular list** on heap nodes: single operations (`LinkedList`), and any run of them over any
number of disjoint lists (`ListRuns.Run`).

**`_tTrimExtraSpace`** on one buffer (`TrimSpace`), with what it does to equal signs (`EqualSigns`).

`Arithmetic` and `Counting` hold what several of these share.

## How to read the model

- The prime table, the hash function and the characters that delimit a quoted string are
  parameters. The table is required to start with 2 and to be strictly increasing primes, as
  `prime_number.h` is. Both hash tables are one generic class, because `comext-hashtable.c` and
  `im_hashtable.c` run the same algorithm.
- A rehash takes the least tabled prime above four times the live count, or the last one. An insert
  that rehashes requires the live entries, with the new one, to be fewer than half of the last
  tabled prime; in a fuller table the probe bound is lost. With the table of the repository, which
  ends at 999983, this is a limit of 499991 live entries. It bounds neither the length of a run nor
  the number of deliveries.
- Elsewhere, in `Relocation`, means in memory where every pointer to an allocation dangles: in the
  buckets of the block and, since attached objects are cells, in attached ones at every depth.
- One cell of memory stands for one byte. A structure is one cell with its fields followed by
  continuation cells up to its size on x86-64: 32 bytes for either header, 128 for a hash bucket,
  32 for a vector bucket, 16 for the value union. A pointer to an allocation is the tree it points
  to together with an identifier, so ownership is a count of identifiers.
- `im_hashtable.c` and `im_vector.c` have the same serialization code up to the bucket type;
  `Serialize` models both with one definition that visits all buckets of a table and the used ones
  of a vector. The vector's `attach_bucket` compares the new size with the used part instead of the
  old size (im_vector.c:380) and so reallocates more often, to the same size.
- The repository holds the receiver of fragments only. The sender in `Cutting` writes the fields
  at the positions the receiver reads and blanks elsewhere.
- In the pools, history fields and the tables of pause and drain calls are there for the
  statements; the modelled code never reads them.

## Where the code and its description differ

- `ShardedThreadPool::unpause` is documented to match each pause call one to one
  (WorkQueue.h:706), but it clears a flag. A pause call that an unpause overtakes can therefore
  return while nothing keeps the workers from processing. `ShardedPool.PauseExcludesProcess` holds
  for a return with the flag set, which is the case when no unpause fell into the call
  (`ShardedPool.FlagStays`); `ShardedPool.OvertakenPauseFails` shows that from every other return
  a worker can get into `_process` with no further unpause, and `ShardedPool.PauseCanBeOvertaken`
  that such a return is reachable.
- `~PointerWQ` takes the queue off the pool's list and then asserts that none of its items is in
  process (WorkQueue.h:360-363), but nothing waits for the workers. The assertion holds whenever it
  is evaluated exactly if no worker is at an item of the queue when it is removed
  (`QueueRemoval.RemovalIsSafe`). `QueueRemoval.EarlyRemovalFails` is a run in which it fires;
  removal after a drain with nothing queued in between is safe (`QueueRemoval.DrainThenRemove`).
- `_tTrimExtraSpace` merges equal signs outside quotes that have only blanks between them into one
  (`==` becomes `=`, `EqualSigns.AdjacentEqualSignsMerge`): the flag that means "a blank precedes"
  is also set after an equal sign. Their number survives exactly when no run of blanks and equal
  signs has two of them (`EqualSigns.EqualSignsSurvive`).
- `ThreadPool::stop` has a parameter that says whether queues are cleared afterwards
  (WorkQueue.h:511) and ignores it: it always clears (`PoolHistory.StopEmptiesQueues`).
- A vector may be created with capacity 0 (Beai3Dict.c:25-31), but doubling makes room exactly when
  there was some (`Vectors.Vector.Resize`), so adding to such a vector writes past its end.
- A value over the size limit is refused after the old value has been removed, so a failed set
  leaves the key absent (Beai3Dict.c:1214-1223). `Dictionary.Dict.Set` states this.

## Model

| member | source | states |
|---|---|---|
| `Primes.SearchBucketCount` | Frame_Lib/src/Lib_Dict/Dict_New_CanUse/src/im_hashtable.c:15-38 | The binary search without an equality branch terminates and returns the least tabled prime, never 2, above twice the capacity; the last entry if there is none. |
| `Primes.EuclidBelow` | Frame_Lib/src/Lib_Dict/Dict_New_CanUse/src/im_hashtable.c:138-148 | Euclid's lemma, the reason why the squared offsets do not repeat. |
| `Primes.ProbesDistinct` | Frame_Lib/src/Lib_Dict/Dict_New_CanUse/src/im_hashtable.c:138-148 | The first (p+1)/2 probe positions are pairwise distinct modulo an odd prime p. |
| `Primes.ProbeStep` | Frame_Lib/src/Lib_Dict/Dict_New_CanUse/src/im_hashtable.c:143-147 | Adding 2k-1 and wrapping once moves from probe k-1 to probe k; a second wrap is never needed. |
| `ProbeTable.BlockedPathIsShort` | Frame_Lib/src/Lib_Dict/Dict_New_CanUse/src/im_hashtable.c:133-151 | A path on which the first k+1 probes all collide has met k+1 distinct non-empty buckets, so in a table within its load bound fewer than (p+1)/2 probes collide. |
| `ProbeTable.KeysAreDistinct` | Frame_Lib/src/Lib_Dict/Dict_New_CanUse/src/im_hashtable.c:283-309 | Live buckets and tombstones together hold pairwise distinct keys. |
| `ProbeTable.HitFindsContents` | Frame_Lib/src/Lib_Dict/Dict_New_CanUse/src/im_hashtable.c:133-160 | The first bucket on a key's path that is empty or holds the key decides membership and value in the map. |
| `ProbeTable.WriteAtHit` | Frame_Lib/src/Lib_Dict/Dict_New_CanUse/src/im_hashtable.c:294-303 | Writing a key's bucket at its first hit keeps every other key reachable and updates map and counters by exactly that key. |
| `ProbeTable.ShapeIsEnough` | Frame_Lib/src/Lib_Dict/Dict_New_CanUse/src/im_hashtable.c:581-603 | Rewriting values without touching keys and statuses keeps the table well formed, so lookups after serialization probe as before. |
| `ProbeTable.Table.constructor` | Frame_Lib/src/Lib_Dict/Dict_New_CanUse/src/im_hashtable.c:88-115 | A new table is empty, has no tombstone and more than twice the requested capacity of buckets. |
| `ProbeTable.Table.LoadTest` | Frame_Lib/src/Lib_Dict/Dict_New_CanUse/src/im_hashtable.c:290-292 | The load test asks for a rehash exactly when one more occupied bucket would be half of them. |
| `ProbeTable.Table.Find` | Frame_Lib/src/Lib_Dict/Dict_New_CanUse/src/im_hashtable.c:133-151 | The probe loop ends within (p+1)/2 probes at the key's first hit, in every valid table. |
| `ProbeTable.Table.Retrieve` | Frame_Lib/src/Lib_Dict/Dict_New_CanUse/src/im_hashtable.c:153-180 | Finds a key exactly when the map has it, at a bucket with the map's value. |
| `ProbeTable.Table.DeleteAt` | Frame_Lib/src/Lib_Dict/Dict_New_CanUse/src/im_hashtable.c:162-173 | A live bucket becomes a tombstone of its key and leaves the map; anything else is refused and unchanged. |
| `ProbeTable.Table.Delete` | Frame_Lib/src/Lib_Dict/Dict_New_CanUse/src/im_hashtable.c:182-187 | Removes exactly the key, and tells whether it was there. |
| `ProbeTable.Table.Clear` | Frame_Lib/src/Lib_Dict/Dict_New_CanUse/src/im_hashtable.c:189-202 | Empties map, counters and tombstones. |
| `ProbeTable.Table.Insert` | Frame_Lib/src/Lib_Dict/Dict_New_CanUse/src/im_hashtable.c:283-309 | Adds an absent key, refuses a present one, takes over a tombstone only for its own key, rehashes only when the load test says so, and never inside a rehash. |
| `ProbeTable.Table.Place` | Frame_Lib/src/Lib_Dict/Dict_New_CanUse/src/im_hashtable.c:294-305 | The half of an insert after the load test: one bucket written, counters exact. |
| `ProbeTable.Table.Rehash` | Frame_Lib/src/Lib_Dict/Dict_New_CanUse/src/im_hashtable.c:311-356 | Same map and count in the least tabled prime above four times the count, or the last one; no tombstone, load bound restored with room for the pending insert. |
| `ProbeTable.Table.CopyBucket` | Frame_Lib/src/Lib_Dict/Dict_New_CanUse/src/im_hashtable.c:334-338 | An insert made while rehashing finds room and rehashes nothing. |
| `ProbeTable.Table.Update` | Frame_Socket/C/Socket_Bafe/comext-bancscard.c:413-414 | Overwriting a live bucket's value in place changes the map at that key only. |
| `ProbeTable.Table.Keys` | Frame_Lib/src/Lib_Dict/Dict_New_CanUse/utils/beai3/Beai3Dict.c:1566-1577 | Lists the smaller of the limit and the live count of distinct live keys; all of them when the limit allows. |
| `Store.DecodeOfEncode` | Frame_Lib/src/Lib_Dict/Dict_New_CanUse/src/im_hashtable.c:503-521 | Copying an object's memory and reading it at the other place gives the object. |
| `Store.EncodeOfDecode` | Frame_Lib/src/Lib_Dict/Dict_New_CanUse/src/im_hashtable.c:364-382 | Copying an attached child out and its memory back restores the region cell by cell. |
| `Store.ChildIsLighter` | Frame_Lib/src/Lib_Dict/Dict_New_CanUse/src/im_hashtable.c:400-416 | A child, external or decoded from the region, weighs less than its parent, so recursion over a tree ends. |
| `Serialize.PackedAt` | Frame_Lib/src/Lib_Dict/Dict_New_CanUse/src/im_types.h:92-97 | In a serialized object a value starts where the ones before it end, a nested one at the next multiple of 8. |
| `Serialize.PackedLayout` | Frame_Lib/src/Lib_Dict/Dict_New_CanUse/src/im_hashtable.c:437-557 | Attached values of a serialized object occupy disjoint in-bounds intervals in bucket order. |
| `Serialize.PackedOwnsNothingFrom` | Frame_Lib/src/Lib_Dict/Dict_New_CanUse/src/im_hashtable.c:565-617 | No allocation is reachable from a serialized object at any depth. |
| `Serialize.Grow` | Frame_Lib/src/Lib_Dict/Dict_New_CanUse/src/im_hashtable.c:444-457 | The region grows in steps of 8192 until the value fits and no further, keeping what it holds, and not at all if it fits. |
| `Serialize.AttachedMeansTheSame` | Frame_Lib/src/Lib_Dict/Dict_New_CanUse/src/im_hashtable.c:460-557 | A value in its new form, inline or attached, means what it meant and owns nothing. |
| `Serialize.Release` | Frame_Lib/src/Lib_Dict/Dict_New_CanUse/src/im_hashtable.c:460-521 | The allocation a value came from is freed once; a packed child is one allocation. |
| `Serialize.Attach` | Frame_Lib/src/Lib_Dict/Dict_New_CanUse/src/im_hashtable.c:421-563 | Attaching one value keeps all earlier ones, its meaning and the books, and changes no cell when the value is already in place. |
| `Serialize.SerializeNested` | Frame_Lib/src/Lib_Dict/Dict_New_CanUse/src/im_hashtable.c:358-419 | A nested value, copied out of the region if attached, becomes a packed allocation with the same meaning. |
| `Serialize.SerializeBucket` | Frame_Lib/src/Lib_Dict/Dict_New_CanUse/src/im_hashtable.c:581-603 | One round of the pass settles one bucket and leaves the others alone. |
| `Serialize.SerializeObj` | Frame_Lib/src/Lib_Dict/Dict_New_CanUse/src/im_hashtable.c:565-617 | Serialization keeps every bucket's status, key and recursive meaning, packs the object, returns header plus used region as length, balances allocations, and is the identity on packed objects, hence idempotent. |
| `Serialize.AlreadyInPlace` | Frame_Lib/src/Lib_Dict/Dict_New_CanUse/src/im_vector.c:286-489 | In a packed region every value is attached back to where it is, copied out or not. |
| `Relocation.ErasedBlock` | Frame_Lib/src/Lib_Dict/Dict_New_CanUse/src/im_hashtable.c:400-416 | Reading memory whose pointers dangle gives the object with its pointers dangling: erasing and decoding commute. |
| `Relocation.RelocatableIffOwnsNothing` | Frame_Lib/src/Lib_Dict/Dict_New_CanUse/src/im_hashtable.c:565-617 | With all allocations gone an object is still valid if and only if it owns none at any depth, and then means the same. |
| `Relocation.PackedIsRelocatable` | Frame_Lib/src/Lib_Dict/Dict_New_CanUse/src/im_hashtable.c:565-617 | A packed block copied cell by cell to any place, with every allocation of its origin gone, reads back valid and with the same meaning at every depth. |
| `Relocation.SerializeAndMove` | Frame_Lib/src/Lib_Dict/Dict_New_CanUse/src/im_hashtable.c:565-617 | Any tree, serialized here and read elsewhere from the cells of its block alone, is the tree it was; its allocations are released. |
| `Ownership.FreeValue` | Frame_Lib/src/Lib_Dict/Dict_New_CanUse/src/im_hashtable.c:51-86 | Freeing a bucket frees exactly what it owns, through external and attached children. |
| `Ownership.FreeBuckets` | Frame_Lib/src/Lib_Dict/Dict_New_CanUse/src/im_hashtable.c:122-131 | Destroying an object's buckets frees each allocation below it as often as it is owned. |
| `Ownership.BlockAsMap` | Frame_Lib/src/Lib_Dict/Dict_New_CanUse/src/im_hashtable.c:334-350 | Validity, ownership and meaning of a table depend only on its map, so moving buckets cannot change them. |
| `Ownership.MapFrame` | Frame_Lib/src/Lib_Dict/Dict_New_CanUse/src/im_hashtable.c:319-332 | The region copy of a rehash keeps every attached offset valid and every value's meaning. |
| `Ownership.OwnedOrFreedOnce` | Frame_Lib/src/Lib_Dict/Dict_New_CanUse/src/im_hashtable.c:460-521 | After a balanced run each allocation ever made is owned exactly once or was freed exactly once. |
| `Dictionary.Dict.constructor` | Frame_Lib/src/Lib_Dict/Dict_New_CanUse/utils/beai3/Beai3Dict.c:9-15 | A new dictionary is the empty map in the least tabled prime above twice the capacity, and owns one block. |
| `Dictionary.Dict.Get` | Frame_Lib/src/Lib_Dict/Dict_New_CanUse/utils/beai3/Beai3Dict.c:864-961 | Reads the map's value whatever its representation: inline, external or attached. |
| `Dictionary.Dict.GetBlock` | Frame_Lib/src/Lib_Dict/Dict_New_CanUse/utils/beai3/Beai3Dict.c:864-899 | A block yields its bytes up to the room the caller has, whatever its representation; other values and absent keys are refused. |
| `Dictionary.Dict.GetNested` | Frame_Lib/src/Lib_Dict/Dict_New_CanUse/utils/beai3/Beai3Dict.c:901-961 | A nested dictionary or array of the asked kind is handed out, external or attached, with the meaning stored; anything else is refused. |
| `Dictionary.Dict.Remove` | Frame_Lib/src/Lib_Dict/Dict_New_CanUse/src/im_hashtable.c:162-187 | Removes a key and frees what its value owned. |
| `Dictionary.Dict.Put` | Frame_Lib/src/Lib_Dict/Dict_New_CanUse/src/im_hashtable.c:283-356 | Inserting, with or without a move to a new block, adds one entry and keeps the rest of the view. |
| `Dictionary.MakePayload` | Frame_Lib/src/Lib_Dict/Dict_New_CanUse/utils/beai3/Beai3Dict.c:1225-1239 | Data of up to 16 bytes goes inline, longer data to one new allocation, and either means the data. |
| `Dictionary.Dict.Set` | Frame_Lib/src/Lib_Dict/Dict_New_CanUse/utils/beai3/Beai3Dict.c:1205-1343 | Replaces the value under the clipped key; a value over the limit is refused and leaves the key absent; a nested handle is taken over only on success. |
| `Dictionary.Dict.Delete` | Frame_Lib/src/Lib_Dict/Dict_New_CanUse/utils/beai3/Beai3Dict.c:1345-1348 | Removes the clipped key from the view. |
| `Dictionary.Dict.Clear` | Frame_Lib/src/Lib_Dict/Dict_New_CanUse/utils/beai3/Beai3Dict.c:41-47 | Leaves the empty map and only the dictionary's own block. |
| `Dictionary.Dict.Destroy` | Frame_Lib/src/Lib_Dict/Dict_New_CanUse/utils/beai3/Beai3Dict.c:17-23 | Frees everything the dictionary owns, its block included. |
| `Dictionary.Dict.SerializeDict` | Frame_Lib/src/Lib_Dict/Dict_New_CanUse/utils/beai3/Beai3Dict.c:1413-1422 | One packed block of the returned length, the same view, nothing else owned; unchanged when packed before. |
| `Dictionary.Dict.Keys` | Frame_Lib/src/Lib_Dict/Dict_New_CanUse/utils/beai3/Beai3Dict.c:1566-1577 | The smaller of the limit and the entry count of distinct keys of the view. |
| `Dictionary.Apply` | Frame_Lib/src/Lib_Dict/Dict_New_CanUse/utils/beai3/Beai3Dict.c:1205-1422 | Each operation does to the view what it does to a plain map, and answers the same. |
| `Dictionary.Run` | Frame_Lib/src/Lib_Dict/Dict_New_CanUse/utils/beai3/Beai3Dict.c:1205-1422 | Every run of operations, however long, refines a finite map from clipped keys to values and balances its allocations, as long as the entries live at each set leave room. |
| `Dictionary.Lifetime` | Frame_Lib/src/Lib_Dict/Dict_New_CanUse/utils/beai3/Beai3Dict.c:9-23 | A dictionary created, used in any run of operations and destroyed answers like a map throughout, and in the end every allocation ever made was freed exactly once, but for those the caller keeps. |
| `DictionaryLaws.ShortKeysAreKept` | Frame_Lib/src/Lib_Dict/Dict_New_CanUse/src/im_hashtable.c:139-141 | A key of up to 102 characters is kept as it is. |
| `DictionaryLaws.ClipTells` | Frame_Lib/src/Lib_Dict/Dict_New_CanUse/src/im_hashtable.c:139-141 | Two keys are one key if and only if they agree on their first 102 characters. |
| `DictionaryLaws.LengthIs` | Frame_Lib/src/Lib_Dict/Dict_New_CanUse/utils/beai3/Beai3Dict.c:1214-1334 | The stored length: four for an int, the bytes of data, and for a nested block everything but the unused region. |
| `DictionaryLaws.AcceptedIffFits` | Frame_Lib/src/Lib_Dict/Dict_New_CanUse/utils/beai3/Beai3Dict.c:1222-1334 | Numbers are always accepted; data up to 1048576 bytes; a nested handle when header, buckets and used region are together at most that. |
| `DictionaryLaws.SetThenGet` | Frame_Lib/src/Lib_Dict/Dict_New_CanUse/utils/beai3/Beai3Dict.c:1205-1343 | After a set, reading the same key finds the value, or nothing if it did not fit, and reading any other key finds what was there before. |
| `DictionaryLaws.SetThenGetNested` | Frame_Lib/src/Lib_Dict/Dict_New_CanUse/utils/beai3/Beai3Dict.c:901-961 | A nested handle that was accepted is handed out under its kind, and no other, with its meaning. |
| `DictionaryLaws.ModelReadsLastWrite` | Frame_Lib/src/Lib_Dict/Dict_New_CanUse/utils/beai3/Beai3Dict.c:1205-1422 | The map after a run has exactly the values last stored and not touched since. |
| `DictionaryLaws.RunThenGet` | Frame_Lib/src/Lib_Dict/Dict_New_CanUse/utils/beai3/Beai3Dict.c:1205-1422 | The same of the table itself, after any run on a new dictionary. |
| `DictionaryLaws.BlockSizes` | Frame_Lib/src/Lib_Dict/Dict_New_CanUse/src/im_hashtable.c:316-325 | A block is 32 bytes of header, 128 per hash bucket or 32 per vector bucket, and its region. |
| `DictionaryLaws.PackedDataForm` | Frame_Lib/src/Lib_Dict/Dict_New_CanUse/src/im_hashtable.c:460-500 | In a serialized object data of up to 16 bytes is in its bucket and longer data in the region. |
| `Vectors.Vector.constructor` | Frame_Lib/src/Lib_Dict/Dict_New_CanUse/src/im_vector.c:51-71 | A new vector is the empty sequence with the requested capacity, 0 included, and owns one block. |
| `Vectors.Vector.Add` | Frame_Lib/src/Lib_Dict/Dict_New_CanUse/src/im_vector.c:168-182 | Appends one element, through a doubling if full, returns its position and takes over what the element owns. |
| `Vectors.Vector.Resize` | Frame_Lib/src/Lib_Dict/Dict_New_CanUse/src/im_vector.c:238-284 | Twice the capacity, which is more room exactly when there was some; the same elements and attached offsets; the old block freed. |
| `Vectors.Vector.Delete` | Frame_Lib/src/Lib_Dict/Dict_New_CanUse/src/im_vector.c:184-199 | Removes the element at a valid position and frees exactly what it owns; refuses others. |
| `Vectors.Vector.Set` | Frame_Lib/src/Lib_Dict/Dict_New_CanUse/src/im_vector.c:201-217 | Replaces the element at a valid position, frees exactly what the old one owns and takes over the new one; refuses others. |
| `Vectors.Vector.Get` | Frame_Lib/src/Lib_Dict/Dict_New_CanUse/src/im_vector.c:219-225 | Reads the element at a valid position; none at others. |
| `Vectors.BlockAsElements` | Frame_Lib/src/Lib_Dict/Dict_New_CanUse/src/im_vector.c:14-49 | A vector block as buckets or as a sequence of values: valid together, same meaning, same allocations. |
| `Vectors.Vector.SerializeVector` | Frame_Lib/src/Lib_Dict/Dict_New_CanUse/src/im_vector.c:491-543 | One packed block of the returned length, the same elements to every reader, nothing else owned. |
| `Vectors.Vector.Clear` | Frame_Lib/src/Lib_Dict/Dict_New_CanUse/src/im_vector.c:227-236 | Frees every value and leaves the empty sequence. |
| `ThreadPool.InvIsSafe` | Frame_ThreadPool/C++/Frame_ThreadPoll_Ceph/WorkQueue.h:407-411 | The invariant implies that no assertion of a worker or of unpause fires and no counter is decremented at zero. |
| `ThreadPool.TurnKeeps` | Frame_ThreadPool/C++/Frame_ThreadPoll_Ceph/WorkQueue.cc:91-158 | A worker's lock-held region, with finish, stop, join, shrink and dispatch, keeps the invariant. |
| `ThreadPool.JoinOldKeeps` | Frame_ThreadPool/C++/Frame_ThreadPoll_Ceph/WorkQueue.cc:176-185 | A lock holder joins only threads that will not take the lock again. |
| `ThreadPool.StartThreadsKeeps` | Frame_ThreadPool/C++/Frame_ThreadPoll_Ceph/WorkQueue.cc:160-174 | Starting creates exactly the missing threads. |
| `ThreadPool.StepKeeps` | Frame_ThreadPool/C++/Frame_ThreadPoll_Ceph/WorkQueue.cc:72-269 | Every step of every worker and caller keeps the invariant. |
| `ThreadPool.RunsAreSafe` | Frame_ThreadPool/C++/Frame_ThreadPoll_Ceph/WorkQueue.cc:72-269 | Every state of every run satisfies the invariant and the conditions under which workers and callers decrement and assert. |
| `ThreadPool.PauseExcludesWork` | Frame_ThreadPool/C++/Frame_ThreadPoll_Ceph/WorkQueue.cc:231-258 | From the return of a pause until its own unpause no worker processes an item, whatever other pauses and unpauses interleave. |
| `ThreadPool.DrainIsComplete` | Frame_ThreadPool/C++/Frame_ThreadPoll_Ceph/WorkQueue.cc:260-269 | When drain of a queue returns, every item queued before it began is finished or cleared. |
| `ThreadPool.QuickDrainIsComplete` | Frame_ThreadPool/C++/Frame_ThreadPoll_Ceph/WorkQueue.h:364-374 | The drain that returns without waiting has nothing left to wait for in its queue. |
| `ThreadPool.FirstInFirstOut` | Frame_ThreadPool/C++/Frame_ThreadPoll_Ceph/WorkQueue.h:393-403 | The item a worker takes is the oldest one that has not left the queue. |
| `ThreadPool.EveryThreadOnce` | Frame_ThreadPool/C++/Frame_ThreadPoll_Ceph/WorkQueue.cc:100-109 | Every worker ever created is current, retired or joined, exactly one of them, once. |
| `ThreadPool.NextTurnJoinsRetired` | Frame_ThreadPool/C++/Frame_ThreadPoll_Ceph/WorkQueue.cc:100-104 | The next worker to run joins every retired thread, once. |
| `ThreadPool.StopJoinsAll` | Frame_ThreadPool/C++/Frame_ThreadPoll_Ceph/WorkQueue.cc:202-229 | When stop returns every thread ever created has been joined exactly once and none is left. |
| `ThreadPool.ShrinkingIsBounded` | Frame_ThreadPool/C++/Frame_ThreadPoll_Ceph/WorkQueue.cc:103-109 | A turn removes at most one thread and never goes below the wanted number. |
| `ThreadPool.TryQueues` | Frame_ThreadPool/C++/Frame_ThreadPoll_Ceph/WorkQueue.cc:112-139 | The dispatch loop is the round-robin scan the statements speak of. |
| `ThreadPool.WaitsOnlyWhenEmpty` | Frame_ThreadPool/C++/Frame_ThreadPoll_Ceph/WorkQueue.cc:111-152 | An unpaused worker waits only when every listed queue is empty. |
| `ThreadPool.BypassIsBounded` | Frame_ThreadPool/C++/Frame_ThreadPoll_Ceph/WorkQueue.cc:111-142 | While a listed queue has work and is not served, all workers together dequeue fewer items than there are queues. |
| `QueueRemoval.ProcessingIsTheSum` | Frame_ThreadPool/C++/Frame_ThreadPoll_Ceph/WorkQueue.cc:119-132 | The number of items in process is the sum of the queues' own numbers in every state of every run. |
| `QueueRemoval.HoldsWhenNoneBusy` | Frame_ThreadPool/C++/Frame_ThreadPoll_Ceph/WorkQueue.h:360-363 | The destructor's assertion holds in a state exactly when no worker is at an item of the queue. |
| `QueueRemoval.RemovalIsSafe` | Frame_ThreadPool/C++/Frame_ThreadPoll_Ceph/WorkQueue.h:360-363 | It holds at every time after the removal if and only if no worker was at an item of the queue when it was removed. |
| `QueueRemoval.QuietThenRemove` | Frame_ThreadPool/C++/Frame_ThreadPoll_Ceph/WorkQueue.h:364-374 | A queue found empty with nothing in process, and given nothing since, is removed without the assertion firing. |
| `QueueRemoval.DrainThenRemove` | Frame_ThreadPool/C++/Frame_ThreadPoll_Ceph/WorkQueue.cc:260-269 | So is a queue whose drain has returned, with nothing queued in between. |
| `QueueRemoval.EarlyRemovalFails` | Frame_ThreadPool/C++/Frame_ThreadPoll_Ceph/WorkQueue.h:360-363 | A run in which the assertion fires. |
| `QueueRemoval.RemoveListed` | Frame_ThreadPool/C++/Frame_ThreadPoll_Ceph/WorkQueue.h:470-479 | The removal loop closes the gap at the first occurrence, and its own assertion holds. |
| `PoolHistory.PauseIsCounted` | Frame_ThreadPool/C++/Frame_ThreadPoll_Ceph/WorkQueue.cc:231-258 | The pause count is the number of pause and pause_new calls so far less the number of unpauses. |
| `PoolHistory.DrainIsCounted` | Frame_ThreadPool/C++/Frame_ThreadPoll_Ceph/WorkQueue.cc:260-269 | The drain count is the number of drain calls so far less the number of their returns. |
| `PoolHistory.MatchedPausesLetWork` | Frame_ThreadPool/C++/Frame_ThreadPoll_Ceph/WorkQueue.cc:111-142 | When every pause has been matched, a worker that gets a turn takes an item if any listed queue has one. |
| `PoolHistory.UnmatchedPauseHoldsWork` | Frame_ThreadPool/C++/Frame_ThreadPoll_Ceph/WorkQueue.cc:111-142 | While a pause is unmatched no turn takes an item. |
| `PoolHistory.TurnEndsWorker` | Frame_ThreadPool/C++/Frame_ThreadPoll_Ceph/WorkQueue.cc:97-109 | A turn with too many threads retires exactly that worker; a turn during a stop ends it. |
| `PoolHistory.PauseReturnsWhenIdle` | Frame_ThreadPool/C++/Frame_ThreadPoll_Ceph/WorkQueue.cc:231-241 | A pause call can return exactly when no worker is at an item. |
| `PoolHistory.DrainReturnsWhenIdle` | Frame_ThreadPool/C++/Frame_ThreadPoll_Ceph/WorkQueue.cc:260-269 | A drain can return exactly when no worker is at an item and the queue it waits for is empty. |
| `PoolHistory.UnpauseIsPossible` | Frame_ThreadPool/C++/Frame_ThreadPoll_Ceph/WorkQueue.cc:250-258 | A pause in force can be undone at any time. |
| `PoolHistory.StopWaitsForThreads` | Frame_ThreadPool/C++/Frame_ThreadPoll_Ceph/WorkQueue.cc:202-229 | A stop can end exactly when every thread has been joined, and joins exactly threads that have ended and are not joined yet. |
| `PoolHistory.EnqueuedIsSubmitted` | Frame_ThreadPool/C++/Frame_ThreadPoll_Ceph/WorkQueue.h:375-379 | A queue's record of what it was given is what the queue calls of the run gave it, in their order. |
| `PoolHistory.OutcomesAreTrue` | Frame_ThreadPool/C++/Frame_ThreadPoll_Ceph/WorkQueue.h:407-411 | Its records of finished and cleared items are what workers were at when they finished and what stops threw away. |
| `PoolHistory.ItemsAreConserved` | Frame_ThreadPool/C++/Frame_ThreadPoll_Ceph/WorkQueue.h:354-430 | Items given to a queue are still in it, with a worker, finished or thrown away by a stop, each as often. |
| `PoolHistory.DrainFinishesSubmitted` | Frame_ThreadPool/C++/Frame_ThreadPoll_Ceph/WorkQueue.cc:260-269 | When a drain returns, all that the queue calls before it gave to the queue is finished or was thrown away. |
| `PoolHistory.DrainReturnsAtRest` | Frame_ThreadPool/C++/Frame_ThreadPoll_Ceph/WorkQueue.cc:260-269 | Whatever a drain waits for, no worker is at an item when it returns. |
| `PoolHistory.StopEmptiesQueues` | Frame_ThreadPool/C++/Frame_ThreadPoll_Ceph/WorkQueue.cc:202-229 | A stop leaves every listed queue empty. |
| `PoolHistory.ListIs` | Frame_ThreadPool/C++/Frame_ThreadPoll_Ceph/WorkQueue.h:464-479 | The list holds exactly the queues added and not removed since, in the order in which they were added. |
| `PoolHistory.CrewIs` | Frame_ThreadPool/C++/Frame_ThreadPoll_Ceph/WorkQueue.cc:72-229 | The wanted number of threads is the one last asked for; the stop flag is set from a stop's call to its end. |
| `PoolHistory.WantsSome` | Frame_ThreadPool/C++/Frame_ThreadPoll_Ceph/WorkQueue.cc:80-88 | A pool made for some threads always wants some: a configured number that is not positive is ignored. |
| `PoolHistory.StartCreatesMissing` | Frame_ThreadPool/C++/Frame_ThreadPoll_Ceph/WorkQueue.cc:160-174 | Starting and resizing create exactly the missing threads and end none. |
| `WorkQueueVal.InvMeansAssertsHold` | Frame_ThreadPool/C++/Frame_ThreadPoll_Ceph/WorkQueue.h:205-227 | Neither of the two assertions on the hand-over lists can fire. |
| `WorkQueueVal.StepKeeps` | Frame_ThreadPool/C++/Frame_ThreadPoll_Ceph/WorkQueue.h:195-227 | Each list is as long as there are workers about to pop it, and every item is in one place, under every interleaving of the two locks. |
| `WorkQueueVal.RunsKeepInv` | Frame_ThreadPool/C++/Frame_ThreadPoll_Ceph/WorkQueue.h:195-227 | The same for every state of every run. |
| `WorkQueueVal.ExactlyOnce` | Frame_ThreadPool/C++/Frame_ThreadPoll_Ceph/WorkQueue.h:195-227 | Items are processed at most as often as queued and finished at most as often as processed; at rest all three agree. |
| `WorkQueueVal.FinishedByAnother` | Frame_ThreadPool/C++/Frame_ThreadPoll_Ceph/WorkQueue.h:219-227 | A run in which a worker finishes an item that another worker processed. |
| `WorkQueueHistory.RecordsAreTrue` | Frame_ThreadPool/C++/Frame_ThreadPoll_Ceph/WorkQueue.h:195-227 | What is queued, processed and finished is what the actions of the run submitted, took and finished. |
| `WorkQueueHistory.SubmittedIsFinished` | Frame_ThreadPool/C++/Frame_ThreadPoll_Ceph/WorkQueue.h:195-227 | At rest the items finished and the items taken are the items submitted, each as often. |
| `WorkQueueHistory.FirstInFirstOut` | Frame_ThreadPool/C++/Frame_ThreadPoll_Ceph/WorkQueue.h:195-243 | An item queued at the back is handed over after those before it. |
| `WorkQueueHistory.FrontIsNext` | Frame_ThreadPool/C++/Frame_ThreadPoll_Ceph/WorkQueue.h:239-248 | An item queued in front is the next to be handed over. |
| `WorkQueueHistory.TakenInOrder` | Frame_ThreadPool/C++/Frame_ThreadPoll_Ceph/WorkQueue.h:195-211 | Items are processed in the order in which they were dispatched. |
| `WorkQueueHistory.FinishedInOrder` | Frame_ThreadPool/C++/Frame_ThreadPoll_Ceph/WorkQueue.h:214-227 | Items are finished in the order in which workers were done with them. |
| `ShardedPool.StepKeeps` | Frame_ThreadPool/C++/Frame_ThreadPoll_Ceph/WorkQueue.cc:294-439 | Every step keeps num_paused and num_drained equal to the workers in those regions, and returned pauses effective. |
| `ShardedPool.RunsKeepInv` | Frame_ThreadPool/C++/Frame_ThreadPoll_Ceph/WorkQueue.cc:303-342 | num_paused is the number of workers in the paused region in every state of every run. |
| `ShardedPool.PauseExcludesProcess` | Frame_ThreadPool/C++/Frame_ThreadPoll_Ceph/WorkQueue.cc:390-402 | From a pause that returns with the flag set until the next unpause, all threads are in the paused region. |
| `ShardedPool.FlagStays` | Frame_ThreadPool/C++/Frame_ThreadPoll_Ceph/WorkQueue.cc:390-423 | A pause call during which no unpause happens returns with the flag set. |
| `ShardedPool.OvertakenPauseFails` | Frame_ThreadPool/C++/Frame_ThreadPoll_Ceph/WorkQueue.cc:397-400 | From every return without the flag a worker can reach _process with no further unpause. |
| `ShardedPool.PauseCanBeOvertaken` | Frame_ThreadPool/C++/Frame_ThreadPoll_Ceph/WorkQueue.cc:390-423 | A run with such a return. |
| `ShardedHistory.FlagsAre` | Frame_ThreadPool/C++/Frame_ThreadPoll_Ceph/WorkQueue.cc:375-439 | Each flag is what the last call about it made it. |
| `ShardedHistory.WorkersAre` | Frame_ThreadPool/C++/Frame_ThreadPoll_Ceph/WorkQueue.cc:350-372 | Starting creates all threads of the pool, once. |
| `ShardedHistory.StartCreates` | Frame_ThreadPool/C++/Frame_ThreadPoll_Ceph/WorkQueue.cc:350-372 | New threads are at their beginning and existing ones go on. |
| `ShardedHistory.DrainReturnsDrained` | Frame_ThreadPool/C++/Frame_ThreadPoll_Ceph/WorkQueue.cc:425-439 | When a drain returns, every thread of the pool is in the drained region. |
| `ShardedHistory.PauseReturnsWhenPaused` | Frame_ThreadPool/C++/Frame_ThreadPoll_Ceph/WorkQueue.cc:390-402 | A pause call can return exactly when every thread of the pool is in the paused region. |
| `ShardedHistory.FreeWorkerProcesses` | Frame_ThreadPool/C++/Frame_ThreadPoll_Ceph/WorkQueue.cc:294-342 | With no flag set a worker goes from the top of its loop to _process and back. |
| `ShardedHistory.PausedWorkerStays` | Frame_ThreadPool/C++/Frame_ThreadPoll_Ceph/WorkQueue.cc:303-315 | With the pause flag set it goes to the paused region, is counted once, and stays. |
| `ShardedHistory.DrainingWorkerGoes` | Frame_ThreadPool/C++/Frame_ThreadPoll_Ceph/WorkQueue.cc:318-336 | With the drain flag set it goes to the drained region if its shard is empty, and processes if not. |
| `ShardedHistory.StoppedWorkerEnds` | Frame_ThreadPool/C++/Frame_ThreadPoll_Ceph/WorkQueue.cc:294-302 | With the stop flag set it ends. |
| `Reassembly.LengthBound` | Frame_Socket/C/Socket_Bafe/comext-bancscard.c:261-263 | A four-character length field is at most 9999, so one more page always suffices. |
| `Reassembly.AppendBodies` | Frame_Socket/C/Socket_Bafe/comext-bancscard.c:258-301 | The joining loop appends the bodies in slot order up to the last fragment, every copy inside the buffer, and tells whether it met one. |
| `Reassembly.HandleDefault` | Frame_Socket/C/Socket_Bafe/comext-bancscard.c:234-307 | The first header and all bodies in order. |
| `Reassembly.Handle039001` | Frame_Socket/C/Socket_Bafe/comext-bancscard.c:151-233 | The same with the number of 27-byte items inserted before them as six digits. |
| `Reassembly.HandleInputMessage` | Frame_Socket/C/Socket_Bafe/comext-bancscard.c:309-358 | Waits while a fragment is missing, joins when complete, drops malformed and overlong messages. |
| `Reassembly.Reassembler.constructor` | Frame_Socket/C/Socket_Bafe/comext-bancscard.c:36-45 | Starts with an empty store. |
| `Reassembly.Reassembler.StoreFragment` | Frame_Socket/C/Socket_Bafe/comext-bancscard.c:388-414 | The fragment is in the slot of its number, in a new entry if its message had none. |
| `Reassembly.Reassembler.Input` | Frame_Socket/C/Socket_Bafe/comext-bancscard.c:360-419 | One delivery does to the table what it does to a plain map of messages, and answers the same. |
| `Reassembly.Reassembler.InputAll` | Frame_Socket/C/Socket_Bafe/comext-bancscard.c:360-419 | So does any sequence of deliveries, however long, as long as the messages pending at each new one leave room. |
| `Reassembly.OthersUntouched` | Frame_Socket/C/Socket_Bafe/comext-bancscard.c:388-414 | A delivery touches no other message. |
| `Reassembly.ExamineSlots` | Frame_Socket/C/Socket_Bafe/comext-bancscard.c:314-335 | The scan reports completion exactly when no fragment is missing. |
| `Reassembly.JoinIsReassembled` | Frame_Socket/C/Socket_Bafe/comext-bancscard.c:151-307 | Joining all fragments gives the message as it was before it was cut. |
| `Reassembly.OwnArrival` | Frame_Socket/C/Socket_Bafe/comext-bancscard.c:360-419 | A fragment is answered with nothing until it is the last missing one, then with the whole message, and the entry is gone. |
| `Reassembly.ReassemblyIsOrderIndependent` | Frame_Socket/C/Socket_Bafe/comext-bancscard.c:234-419 | For every order of arrival and every interleaving with other messages, all but the last fragment are answered with nothing, the last with the whole message, and no trace stays. |
| `Reassembly.Reassembler.Receive` | Frame_Socket/C/Socket_Bafe/comext-bancscard.c:360-419 | The same for raw fragments delivered to the table itself. |
| `Numerals.DecimalRoundTrip` | Frame_Socket/C/Socket_Bafe/comext-bancscard.c:228-231 | Printing a number in decimal digits and reading it back are inverses. |
| `Numerals.AtoiReads` | Frame_Socket/C/Socket_Bafe/comext-bancscard.c:280-282 | A printed number is read behind any blanks and a sign, and up to the first character that is no digit. |
| `Numerals.CStringStops` | Frame_Socket/C/Socket_Bafe/comext-bancscard.c:370-374 | A character field ends at its terminator. |
| `ReassemblyLaws.AnswerIs` | Frame_Socket/C/Socket_Bafe/comext-bancscard.c:314-345 | Waiting, failing and completing, each exactly in its case: a gap before a last fragment; a flag other than 0, 2, 4 and 6 or 64 fragments without a last one; flags 0 or 4 up to a 2 or 6. Everything but waiting removes the entry. |
| `ReassemblyLaws.UnknownFlagFails` | Frame_Socket/C/Socket_Bafe/comext-bancscard.c:319-335 | A fragment with an unknown flag, all before it there, fails its message and leaves no entry. |
| `ReassemblyLaws.SlotsAfter` | Frame_Socket/C/Socket_Bafe/comext-bancscard.c:388-414 | After a delivery the fragment is in the slot of its number and the other slots are as they were. |
| `ReassemblyLaws.EntryAfter` | Frame_Socket/C/Socket_Bafe/comext-bancscard.c:388-419 | A delivery that waits leaves its slots, any other leaves no entry. |
| `ReassemblyLaws.MessageIs` | Frame_Socket/C/Socket_Bafe/comext-bancscard.c:314-335 | What counts as a message: 1 to 64 fragments numbered in order, flags 0 or 4, and 2 or 6 for the last. |
| `ReassemblyLaws.ItemListIs` | Frame_Socket/C/Socket_Bafe/comext-bancscard.c:151-233 | The answer for code 039001: 129 bytes of header, 19 bytes, six digits that number the 27-byte items, and the items. |
| `ReassemblyLaws.ReceiveWhole` | Frame_Socket/C/Socket_Bafe/comext-bancscard.c:151-419 | Raw fragments delivered to the table in any order: no answer but the last, and that is header, content and, for an item list, the right count. |
| `Cutting.ParseOfRender` | Frame_Socket/C/Socket_Bafe/comext-bancscard.c:370-377 | What the receiver reads off a fragment, numbers, names, header and body, is what the sender put in. |
| `Cutting.CutIsMessage` | Frame_Socket/C/Socket_Bafe/comext-bancscard.c:151-307 | The fragments cut from a message are a message in the receiver's sense, and joining them gives the first header and the whole content. |
| `Cutting.CutThenReassemble` | Frame_Socket/C/Socket_Bafe/comext-bancscard.c:234-419 | Cut, delivered in any order among any other fragments, and reassembled, every message comes back, with the last of its fragments. |
| `LinkedList.Node.constructor` | Frame_Lib/src/Lib_List/lib_list.h:32-36 | A node alone is an empty list. |
| `LinkedList.LinkBetween` | Frame_Lib/src/Lib_List/lib_list.h:44-52 | Linking a node between two neighbours inserts it into their ring. |
| `LinkedList.Add` | Frame_Lib/src/Lib_List/lib_list.h:62-65 | The node becomes the first of the list. |
| `LinkedList.AddTail` | Frame_Lib/src/Lib_List/lib_list.h:75-78 | The node becomes the last of the list. |
| `LinkedList.Unlink` | Frame_Lib/src/Lib_List/lib_list.h:87-91 | The neighbours of a node form the ring without it. |
| `LinkedList.Remove` | Frame_Lib/src/Lib_List/lib_list.h:87-101 | The list without the entry, which is in it no more. |
| `LinkedList.Del` | Frame_Lib/src/Lib_List/lib_list.h:98-103 | The entry leaves the list and points nowhere. |
| `LinkedList.DelInit` | Frame_Lib/src/Lib_List/lib_list.h:109-113 | The entry leaves the list and is an empty list. |
| `LinkedList.Move` | Frame_Lib/src/Lib_List/lib_list.h:120-124 | The entry becomes the first of its own or a disjoint list and leaves the old place; disjoint lists stay disjoint. |
| `LinkedList.MoveTail` | Frame_Lib/src/Lib_List/lib_list.h:131-136 | The entry becomes the last of its own or a disjoint list and leaves the old place; disjoint lists stay disjoint. |
| `LinkedList.IsEmpty` | Frame_Lib/src/Lib_List/lib_list.h:142-145 | Tells whether the list has no node. |
| `LinkedList.SpliceRing` | Frame_Lib/src/Lib_List/lib_list.h:147-158 | A non-empty list is prepended whole. |
| `LinkedList.SpliceInit` | Frame_Lib/src/Lib_List/lib_list.h:178-185 | Any list is prepended whole and its head becomes an empty list, apart from the other. |
| `LinkedList.ForEachSafe` | Frame_Lib/src/Lib_List/lib_list.h:220-222 | While the current entry may be deleted, every original node is visited once in order and exactly the others remain. |
| `LinkedList.WalksAreReverses` | Frame_Lib/src/Lib_List/lib_list.h:201-212 | Walking forward meets the list in order, walking backward in reverse, and both return to the head. |
| `ListRuns.StepKeepsApart` | Frame_Lib/src/Lib_List/lib_list.h:62-185 | No operation makes two lists share a node. |
| `ListRuns.Apply` | Frame_Lib/src/Lib_List/lib_list.h:62-185 | One operation makes the lists it names what the same operation makes of plain sequences, and leaves all others as they are. |
| `ListRuns.Run` | Frame_Lib/src/Lib_List/lib_list.h:62-185 | After any run of add, add_tail, del, del_init, move, move_tail and splice_init over disjoint lists every list is its model sequence. |
| `ListRuns.WalksMeetModel` | Frame_Lib/src/Lib_List/lib_list.h:201-212 | And the walks from its head meet that sequence, forward in order and backward in reverse. |
| `TrimSpace.TrimExtraSpace` | Frame_Lib/src/Excellent_Code/Lib_bas/bas_profile.c:393-441 | Run in place it computes a fold over the original text, terminated, never writing ahead of the reader or past the old end. |
| `TrimSpace.Advance` | Frame_Lib/src/Excellent_Code/Lib_bas/bas_profile.c:404-437 | One round of the loop is one step of the fold. |
| `TrimSpace.TrimIsReference` | Frame_Lib/src/Excellent_Code/Lib_bas/bas_profile.c:393-441 | The fold is the stateless rule: each maximal run of blanks and equal signs outside quotes becomes an equal sign if it has one, else its first blank, or nothing at the front. |
| `TrimSpace.ResultIsTight` | Frame_Lib/src/Excellent_Code/Lib_bas/bas_profile.c:411-431 | The result has no superfluous blank or equal sign outside quotes. |
| `TrimSpace.TightMeans` | Frame_Lib/src/Excellent_Code/Lib_bas/bas_profile.c:411-431 | That is: no leading blank, no adjacent blanks, no blank next to an equal sign, no adjacent equal signs. |
| `TrimSpace.TrimIsIdempotent` | Frame_Lib/src/Excellent_Code/Lib_bas/bas_profile.c:393-441 | Trimming twice is trimming once. |
| `TrimSpace.SolidIsKept` | Frame_Lib/src/Excellent_Code/Lib_bas/bas_profile.c:404-436 | Quoted text and all characters other than blanks and equal signs come through verbatim and in order. |
| `EqualSigns.EqualSignsSurvive` | Frame_Lib/src/Excellent_Code/Lib_bas/bas_profile.c:411-431 | Trimming never adds an equal sign outside quotes, and keeps their number if and only if no run of soft characters has two. |
| `EqualSigns.AdjacentEqualSignsMerge` | Frame_Lib/src/Excellent_Code/Lib_bas/bas_profile.c:411-431 | Two adjacent equal signs become one. |

## Left out

- Serialize.SerializeObj: works on trees as values, not on heap objects; update in place and the block moved by a reallocation show only in the returned object, and the stack copy of the old region is a sequence.
- Dictionary.Dict.Get: returns the value itself; number formatting, the string getter's terminator and conversions between number types are not modelled, and all number types are one integer.
- Dictionary.Dict.Keys: lists clipped keys; that a full-length key stored by the string and block setters has no terminator (Beai3Dict.c:1219, 1258) is not modelled.
- Dictionary.Dict.Set: null handles, null keys and negative block sizes, which return -1, are outside the types of the model.
- Vectors.Vector.Add: requires a capacity of at least 1, because adding to a vector created with capacity 0 writes past its end.
- Editing an attached child through its interior handle so that it rehashes, and using a nested handle after it was given away.
- im_duplicate_hashtable, im_duplicate_vector and the Clone functions, which are compiled out of the public interface.
- Failing allocation, and the wrap-around of the int and unsigned counters.
- Reassembly.Reassembler.Input: no timeout cleaning; sequence numbers outside 1 to 64 and fragments shorter than their fields say, which the code does not check, are excluded by Readable.
- A fragment that arrives twice is stored twice by the code and by Deliver, but the order-independence result is about distinct fragments.
- GetMessageLength, GetReferenceID and the transaction lookup of the socket layer.
- Cutting.CutThenReassemble: speaks of fragments laid out by the model's own sender, because the repository has none.
- BatchWorkQueue and WorkQueue, whose queues are supplied by subclasses; ContextWQ's result table; changing a pool's io priority.
- Liveness: that waiting threads are woken, that drain or pause returns at all.
- ShardedPool.StepKeeps: stop only sets the flag; joining the workers and starting again are not modelled, and nothing is claimed about shards being empty when drain returns.
- TrimSpace.TrimExtraSpace: takes the length of the string and the test for string delimiters as parameters; the macro for the latter is not part of this model.
- The containing-structure macros of the list header and the rest of bas_profile.c.
