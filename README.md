# Object pool and chunk allocator, modelled in Dafny

This project models the two allocation engines of the `objectpool` repository
and proves the properties their code promises.

**The generational, compacting object pool** (`ObjectPool/ObjectPool.hpp`,
module `ObjectPools` in `object_pool.dfy`). Live objects fill the dense
logical range `[0, mBack)`, block by block. Slot `i` lives at block
`i / OBJECTS_PER_BLOCK` and index `i % OBJECTS_PER_BLOCK`.

Every slot carries two things:
- a lookup record: a serial (the generation) and a location;
- the slot proper: the payload and a `lookup` reference to a record.

A `Handle` holds a record, the serial it saw and its pool. The handle is
valid while its serial equals the record's current serial.

`destroyObject` works in three steps:
1. It bumps the record's serial.
2. It compacts the range by swap-and-pop.
3. It parks the freed record in the slot just past the new `mBack`.

`createObject` reuses a parked record when there is one. Otherwise it takes
the target slot's own record, never used before, at serial 1. The model
grows the pool by one block when the target block does not exist yet. That
is the intended rule; the header's own test, `block_id > mNumBlocks` at
`ObjectPool/ObjectPool.hpp:147`, misses the case of a full last block (see
Findings).

In the model, the pool is a class. Its slots are one sequence in logical
order. A record is named by the logical number of the slot that holds it.
The ghost set `issued` records every (record, serial) pair ever put into a
handle. Each operation is specified twice:
- by a pure function of the old field values (`AfterCreate`, `AfterDestroy`, `Grown`);
- by lemmas proving that this function keeps the invariant `PoolInv` and every other handle's payload.

**The fixed-size chunk allocator** (`new/PoolAllocator/MemoryPool.hpp`,
module `MemoryPools` in `memory_pool.dfy`). Every raw block is cut into
`mNumObjects` chunks of `OBJECT_SIZE + CHUNK_HEADER_SIZE` bytes. The
one-pointer header of each chunk threads an intrusive singly-linked free
list that starts at `mHead`.
- `alloc` pops the head, after growing by one block if the list is empty and resizing is allowed.
- `free` pushes the chunk back on the front.
- Growth appends the new block's chunks after the current tail.

The pool's `destroy` and `growMemoryArray` release memory with an unqualified
`free`. Inside the class that name is the member `free(void*)`, not the C
library's. The member pushes the word before its argument onto the free list and
releases nothing. The class members model the evident intent, a real release;
the code as written is modelled separately (see Findings).

In the model:
- A chunk is named by its block's position in the block array and its number in the block.
- The headers are a map `next`.
- The block array is a Dafny `array` of `RawBlock` objects, one per `malloc`.
- The ghost sequence `freeList` is the list read from `head` along the headers.
- Whether each `malloc` succeeds is a boolean parameter.

`wrappers.dfy` holds the `Option` and `Result` types both modules use. A
null pointer is `None`. A C++ exception is a `Failure`.

## Model

| member | source | states |
|---|---|---|
| ObjectPools.LocOf | ObjectPool/ObjectPool.hpp:142-143 | the (block, index) address of slot i has an index inside the block, and it maps back to i |
| ObjectPools.LocOfPos | ObjectPool/ObjectPool.hpp:244 | the logical number `block_id*OBJECTS_PER_BLOCK + data_index` of a location maps back to that same location |
| ObjectPools.BlockOfSlot | ObjectPool/ObjectPool.hpp:142-149 | the target block of slot i exists exactly when i is below numBlocks*perBlock; a slot one past the end is at most one block further on |
| ObjectPools.SwapPop | ObjectPool/ObjectPool.hpp:244-272 | after swap-and-pop the live range is one shorter; the hole holds the last payload and every other position keeps its payload |
| ObjectPools.SwapPopMultiset | ObjectPool/ObjectPool.hpp:244-272 | swap-and-pop removes exactly the destroyed payload from the multiset of live payloads |
| ObjectPools.LiveData | ObjectPool/ObjectPool.hpp:189-211 | the live range is the payloads of the first mBack slots, in logical order |
| ObjectPools.IsPowerOf2 | ObjectPool/ObjectPool.hpp:91-94 | the block-size check the template demands: 1, or an even number whose half passes it |
| ObjectPools.Handle.IsInitialized | ObjectPool/ObjectPool.hpp:54 | a handle is initialised exactly when its stored serial is positive |
| ObjectPools.Handle.IsValid | ObjectPool/ObjectPool.hpp:55-62 | a handle is valid exactly when it names a record of a pool that still exists and its serial equals that record's current serial; a null record is never valid |
| ObjectPools.ValidIsInitialized | ObjectPool/ObjectPool.hpp:71-72 | a valid handle made by a pool is initialised, so destroy's `isInitialized()` test never rejects a valid handle |
| ObjectPools.Handle.Empty | ObjectPool/ObjectPool.hpp:86-88 | a default handle is neither initialised nor valid |
| ObjectPools.Handle.Get | ObjectPool/ObjectPool.hpp:64-69 | a handle yields a payload exactly when it is valid, and then it is the live object at its record's logical position |
| ObjectPools.Handle.Reset | ObjectPool/ObjectPool.hpp:83 | after reset the handle is neither initialised nor valid, whatever it held |
| ObjectPools.Handle.Equals | ObjectPool/ObjectPool.hpp:50-52 | two handles compare equal exactly when record, serial and pool all agree |
| ObjectPools.Handle.Destroy | ObjectPool/ObjectPool.hpp:71-81 | succeeds exactly for an initialised, valid, non-null handle whose pool still exists. On success the handle is emptied, the object is swap-popped out of the live range, and every other record keeps its payload and validity. Otherwise nothing changes |
| ObjectPools.ValueIn | ObjectPool/ObjectPool.hpp:231-235 | a record yields a payload only when its location is a live slot whose lookup is that record |
| ObjectPools.ChosenRecord | ObjectPool/ObjectPool.hpp:155-168 | the record createObject uses: the one parked in the target slot when mDestructionOffset > 0, else the target slot's own |
| ObjectPools.AfterCreate | ObjectPool/ObjectPool.hpp:151-181 | the slots after createObject: a fresh record gets serial 1 and becomes the slot's lookup, the chosen record is pointed at the slot, the payload is placed; the length is kept |
| ObjectPools.AfterDestroy | ObjectPool/ObjectPool.hpp:242-272 | the slots after destroyObject: the record's serial is bumped, the last payload and its lookup move into the hole, the moved record is repointed and the freed one parked; the length is kept |
| ObjectPools.Grown | ObjectPool/ObjectPool.hpp:148 | a new block appends perBlock zero-filled slots and leaves every existing slot as it was |
| ObjectPools.GrowKeepsInv | ObjectPool/ObjectPool.hpp:145-149 | appending a block keeps the pool invariant and every record's payload |
| ObjectPools.ChosenRecordNotLive | ObjectPool/ObjectPool.hpp:155-168 | the record createObject picks is not live. A parked record exists whenever the offset is positive; with no parked record the slot's own record has serial 0 |
| ObjectPools.CreateSerialIsNew | ObjectPool/ObjectPool.hpp:155-183 | the serial handed out is positive, is 1 for a never-used record, and is above every serial any earlier handle got for that record |
| ObjectPools.CreateKeepsShape | ObjectPool/ObjectPool.hpp:155-181 | createObject adds one live payload and uses up one parked record, or none if none was parked |
| ObjectPools.CreateKeepsLookups | ObjectPool/ObjectPool.hpp:155-173 | after createObject the lookups of live and parked slots stay distinct, and each live slot's record points back at it |
| ObjectPools.CreateKeepsIssued | ObjectPool/ObjectPool.hpp:155-183 | with the new handle's pair added, no issued serial is ahead of its record, and a current one names a live object |
| ObjectPools.CreateKeepsInv | ObjectPool/ObjectPool.hpp:137-187 | createObject keeps the whole pool invariant |
| ObjectPools.CreateKeepsValues | ObjectPool/ObjectPool.hpp:172-181 | the new record reaches the new payload, the live range gains it at the end, and every other record reaches what it reached before |
| ObjectPools.DestroyFacts | ObjectPool/ObjectPool.hpp:244-249 | the last live slot's record is the destroyed one exactly when the hole is the last live slot; both records locate their slots |
| ObjectPools.DestroyKeepsShape | ObjectPool/ObjectPool.hpp:262-275 | destroyObject removes one live payload and parks one more record |
| ObjectPools.DestroyKeepsDistinct | ObjectPool/ObjectPool.hpp:255-268 | exchanging the lookups of the hole and the last live slot keeps all lookups distinct |
| ObjectPools.DestroyKeepsLocated | ObjectPool/ObjectPool.hpp:248-256 | after destroyObject every live slot's record, the moved one included, points at that slot |
| ObjectPools.DestroyKeepsIssued | ObjectPool/ObjectPool.hpp:242 | after the serial bump, no issued serial is ahead of its record, and a serial equal to its record's current one still names a live object |
| ObjectPools.DestroyKeepsInv | ObjectPool/ObjectPool.hpp:229-276 | destroyObject keeps the whole pool invariant |
| ObjectPools.DestroyKeepsValues | ObjectPool/ObjectPool.hpp:244-272 | the destroyed record reaches nothing and every other record reaches the payload it reached before |
| ObjectPools.DestroyCompacts | ObjectPool/ObjectPool.hpp:244-272 | the live range after destroyObject is the old one with the hole filled by the last payload and the last position dropped |
| ObjectPools.CreateSpec | ObjectPool/ObjectPool.hpp:137-187 | everything createObject establishes: invariant, fresh serial, payload placement, other records and live handles unchanged |
| ObjectPools.DestroySpec | ObjectPool/ObjectPool.hpp:229-276 | everything destroyObject establishes: invariant, swap-and-pop of the live range, the destroyed record dead, others and their serials unchanged |
| ObjectPools.ObjectPool.NewBlock | ObjectPool/ObjectPool.hpp:121 | a new block is OBJECTS_PER_BLOCK zero-filled slots |
| ObjectPools.ObjectPool.constructor | ObjectPool/ObjectPool.hpp:223-225 | a new pool has one block and no live objects or parked records, and satisfies the invariant |
| ObjectPools.ObjectPool.Create | ObjectPool/ObjectPool.hpp:135 | fails with bad_alloc exactly when the first block cannot be allocated; otherwise a fresh, live, empty pool with one block |
| ObjectPools.ObjectPool.Size | ObjectPool/ObjectPool.hpp:189 | size() is the length of the live range |
| ObjectPools.ObjectPool.At | ObjectPool/ObjectPool.hpp:191-211 | operator[] yields the i-th live payload when i is inside the live range, and out_of_range otherwise |
| ObjectPools.ObjectPool.AddBlock | ObjectPool/ObjectPool.hpp:148 | appends one zero-filled block and raises mNumBlocks by one; every payload and live serial is kept |
| ObjectPools.ObjectPool.PlaceObject | ObjectPool/ObjectPool.hpp:151-181 | the slots become the createObject effect, with the chosen record returned; mBack rises by one and the offset falls by one when positive |
| ObjectPools.ObjectPool.Emplace | ObjectPool/ObjectPool.hpp:151-185 | createObject once the block exists: the returned handle is initialised, valid and yields the value, with a serial above every earlier one for its record; the live range gains the value and the invariant holds |
| ObjectPools.ObjectPool.CreateObject | ObjectPool/ObjectPool.hpp:137-187 | fails with bad_alloc, changing nothing, exactly when the target block is beyond the block table, or is missing and the system allocator cannot provide it. Otherwise it grows by exactly one block iff that block does not exist yet, and appends the value. The returned handle is valid and carries a never-issued serial. Every other record and live handle is unaffected |
| ObjectPools.ObjectPool.DestroyObject | ObjectPool/ObjectPool.hpp:229-276 | bumps the record's serial, swap-pops its payload out of the live range, and parks the record at the old last position. mBack falls and the offset rises by one; every other record keeps its payload and serial |
| ObjectPools.ObjectPool.RetireRecord | ObjectPool/ObjectPool.hpp:242-275 | the slots become the destroyObject effect, with mBack down and the offset up by one |
| ObjectPools.ObjectPool.Teardown | ObjectPool/ObjectPool.hpp:216-219 | after the pool's end no handle of it is valid (its weak reference fails); the slots are left as they were |
| ObjectPools.GrowsAsWritten | ObjectPool/ObjectPool.hpp:147 | the growth test as the header writes it, `block_id > mNumBlocks` |
| ObjectPools.GrowthTestMissesFullTable | ObjectPool/ObjectPool.hpp:147 | with every block full, the next slot's block does not exist, yet `block_id > mNumBlocks` does not grow |
| ObjectPools.BlockIdAsWritten | ObjectPool/ObjectPool.hpp:142 | the block id stored in a uint8_t is below 256 |
| ObjectPools.CeilingHitAsWritten | ObjectPool/ObjectPool.hpp:145 | the ceiling test as the header writes it, `block_id > MAX_BLOCKS` |
| ObjectPools.CeilingTestNeverFires | ObjectPool/ObjectPool.hpp:142-147 | `block_id > MAX_BLOCKS` on a uint8_t never holds; block id 255 is one past the table, and slot 256*perBlock (an undefined conversion, commonly wrapping) gives block 0 |
| ObjectPools.AccessAllowedAsWritten | ObjectPool/ObjectPool.hpp:193 | the range test of operator[] as the header writes it, passing unless `index > mBack` |
| ObjectPools.AccessTestAdmitsBack | ObjectPool/ObjectPool.hpp:193 | index mBack passes `index > mBack` although it is past the live range, where the corrected At fails |
| ObjectPools.Handle.EqualsAsWritten | ObjectPool/ObjectPool.hpp:50-52 | operator== as the header writes it: equal serials, and `rhs`'s record compared with itself |
| ObjectPools.HandleEqualityIgnoresRecord | ObjectPool/ObjectPool.hpp:51 | two handles of different records with equal serials are equal as written but not under Equals |
| ObjectPools.DestroyTwice | ObjectPool/main.cpp:107-128 | destroy through a valid handle succeeds once; a second destroy fails; a copy made before is initialised but stale and cannot destroy |
| ObjectPools.NewHandle | ObjectPool/main.cpp:107-116 | a default handle is neither initialised nor valid; one from createObject is both and yields its value |
| MemoryPools.DataOffset | new/PoolAllocator/MemoryPool.hpp:96-103 | for every chunk k, free of the pointer alloc hands out finds chunk k's header again, and the object's bytes end exactly where chunk k+1's header begins |
| MemoryPools.ChunksDisjoint | new/PoolAllocator/MemoryPool.hpp:211-232 | the object bytes of a chunk end no later than the header of any later chunk, so chunks never overlap |
| MemoryPools.BlockEnd | new/PoolAllocator/MemoryPool.hpp:211-220 | the last of n > 0 chunks ends exactly at the block's trueSize bytes |
| MemoryPools.ChunkStep | new/PoolAllocator/MemoryPool.hpp:222-232 | one pointer step moves from chunk k to chunk k+1, which is inside the block exactly when k+1 < n |
| MemoryPools.StrideOrder | new/PoolAllocator/MemoryPool.hpp:220-222 | the pointer loop runs while the chunk number is below mNumObjects |
| MemoryPools.BlockChunks | new/PoolAllocator/MemoryPool.hpp:220-233 | a block's chunks in address order are chunk 0 to chunk n-1 |
| MemoryPools.FirstChunk | new/PoolAllocator/MemoryPool.hpp:195 | the first chunk of a new block, which is where the block's address points |
| MemoryPools.ThreadedPrefixKeys | new/PoolAllocator/MemoryPool.hpp:222-233 | after m loop steps exactly the first m chunks of the block have headers |
| MemoryPools.ThreadedPrefixLinks | new/PoolAllocator/MemoryPool.hpp:225-229 | after m steps each of the first m chunks links to the next, and the last chunk of the block links to null |
| MemoryPools.Threaded | new/PoolAllocator/MemoryPool.hpp:220-233 | a threaded block gives exactly its own chunks headers, each naming the following chunk and the last naming null |
| MemoryPools.LinkedAt | new/PoolAllocator/MemoryPool.hpp:185-189 | the header of the i-th free chunk names the (i+1)-th, or null after the last |
| MemoryPools.FollowSuffix | new/PoolAllocator/MemoryPool.hpp:184-190 | following m headers from the j-th free chunk reaches the (j+m)-th, or null past the end |
| MemoryPools.FreeListIsChain | new/PoolAllocator/MemoryPool.hpp:182-196 | the free list is a finite, acyclic chain: i headers from the head reach the i-th free chunk, and the walk ends in null |
| MemoryPools.AllChunksOwned | new/PoolAllocator/MemoryPool.hpp:220-233 | the blocks own mNumObjects*mMemArraySize distinct chunks, which are exactly the chunks of the blocks |
| MemoryPools.FreeListBounded | new/PoolAllocator/MemoryPool.hpp:173-204 | the free list never holds more than mNumObjects*mMemArraySize chunks |
| MemoryPools.PopKeepsInv | new/PoolAllocator/MemoryPool.hpp:93-94 | the head is the first free chunk, owned, and its header names the new head. The rest is a well-formed free list without it |
| MemoryPools.PushKeepsInv | new/PoolAllocator/MemoryPool.hpp:103-108 | pushing an owned chunk that is not free gives a well-formed free list with that chunk in front |
| MemoryPools.GrownHead | new/PoolAllocator/MemoryPool.hpp:182-196 | the head after growth: kept when the list was not empty, else the new block's first chunk; null only for an empty list and a block of no chunks |
| MemoryPools.GrownNext | new/PoolAllocator/MemoryPool.hpp:179-196 | the headers after growth: the new block threaded, and the old tail's header naming the new block's first chunk |
| MemoryPools.GrowKeepsKeys | new/PoolAllocator/MemoryPool.hpp:179-204 | after growth every chunk of the longer block array, and no other chunk, has a header |
| MemoryPools.GrowKeepsDistinct | new/PoolAllocator/MemoryPool.hpp:179-204 | after growth the free list is the old one plus the new block's chunks, all owned and distinct |
| MemoryPools.GrowKeepsLinked | new/PoolAllocator/MemoryPool.hpp:182-196 | after relinking the tail, the headers spell out the old free list followed by the new block's chunks |
| MemoryPools.GrowKeepsInv | new/PoolAllocator/MemoryPool.hpp:158-207 | growth keeps a well-formed free list: the old list in its order, then the new block's chunks in address order (or only those if the list was empty) |
| MemoryPools.FreeThenAllocRestores | new/PoolAllocator/MemoryPool.hpp:93-108 | free(p) then alloc() gives p back and restores the head and free list (LIFO) |
| MemoryPools.ThreadedPrefixStep | new/PoolAllocator/MemoryPool.hpp:228-229 | one loop step writes chunk k's header and extends the threaded prefix by one chunk |
| MemoryPools.ThreadedKeepsLinked | new/PoolAllocator/MemoryPool.hpp:179 | threading a new block's headers does not disturb the existing free list |
| MemoryPools.NoBlocksNoChunks | new/PoolAllocator/MemoryPool.hpp:144-155 | with no blocks the invariant holds exactly for a null head, no headers and an empty free list |
| MemoryPools.LinkedExtend | new/PoolAllocator/MemoryPool.hpp:228-229 | headers written outside the free list leave it intact |
| MemoryPools.RawBlock.constructor | new/PoolAllocator/MemoryPool.hpp:215 | a fresh block of mNumObjects chunks |
| MemoryPools.MemoryPool.Reset | new/PoolAllocator/MemoryPool.hpp:144-155 | after reset: no block array, null head, no chunks, resizing allowed, not initialised |
| MemoryPools.MemoryPool.constructor | new/PoolAllocator/MemoryPool.hpp:127-130 | the constructor resets and runs init(1024): initialised with one block of 1024 free chunks in address order exactly when both allocations succeed; otherwise no blocks |
| MemoryPools.MemoryPool.Init | new/PoolAllocator/MemoryPool.hpp:30-46 | destroys any existing state and sets mNumObjects = n. Returns true and sets mIsInitialized exactly when growth succeeded, leaving one block whose chunks are the free list in address order; otherwise no block remains. Resizing is re-allowed when old state was destroyed |
| MemoryPools.MemoryPool.Destroy | new/PoolAllocator/MemoryPool.hpp:48-69 | releases every owned block in array order, then the block array itself, then returns to the reset state (the intended release; as written see DestroyPushesAsWritten) |
| MemoryPools.MemoryPool.Alloc | new/PoolAllocator/MemoryPool.hpp:71-97 | with free chunks it pops the head, returning it and following its header. On an empty list without resize or with failed growth it returns null and changes nothing. After growth it returns the new block's first chunk, and the rest of that block is the free list; as written it returns the old block array instead (OldArrayHandedOut). A returned chunk is owned and no longer free |
| MemoryPools.MemoryPool.PopHead | new/PoolAllocator/MemoryPool.hpp:93-94 | removes the first free chunk and makes its header the new head |
| MemoryPools.MemoryPool.Free | new/PoolAllocator/MemoryPool.hpp:99-117 | free(null) changes nothing; free(p) writes the old head into p's header and puts p in front of the free list |
| MemoryPools.MemoryPool.SetAllowResize | new/PoolAllocator/MemoryPool.hpp:121 | sets the resize flag and nothing else |
| MemoryPools.MemoryPool.GrowMemoryArray | new/PoolAllocator/MemoryPool.hpp:158-207 | succeeds exactly when both allocations succeed; otherwise nothing changes. On success the array is one longer, old entries are copied, the new block is fresh, and its chunks follow the old free list in address order. The old array is released as intended, not pushed onto the list as written (GrowAsWrittenPushesOldArray) |
| MemoryPools.MemoryPool.InstallBlock | new/PoolAllocator/MemoryPool.hpp:182-204 | links the threaded block after the tail, adopts the new array in place of the old one, released as intended, and raises mMemArraySize by one, keeping the invariant |
| MemoryPools.MemoryPool.CopyBlocks | new/PoolAllocator/MemoryPool.hpp:164-176 | a fresh array one entry longer whose first entries are the current blocks |
| MemoryPools.MemoryPool.AttachBlock | new/PoolAllocator/MemoryPool.hpp:181-196 | a non-empty list gets the new block's first chunk written into its tail's header; an empty list gets it as the head |
| MemoryPools.MemoryPool.FindTail | new/PoolAllocator/MemoryPool.hpp:184-190 | the walk along the headers from the head stops at the last free chunk |
| MemoryPools.MemoryPool.AllocateNewMemoryBlock | new/PoolAllocator/MemoryPool.hpp:209-236 | null exactly when malloc fails; otherwise a fresh block of mNumObjects chunks, each header naming the next chunk and the last naming null |
| MemoryPools.MemoryPool.ThreadChunks | new/PoolAllocator/MemoryPool.hpp:220-233 | the pointer loop writes exactly the headers of the new block's chunks, linked in address order |
| MemoryPools.MemoryPool.GetNext | new/PoolAllocator/MemoryPool.hpp:239-242 | reads one chunk's header; on the free list it names the next free chunk or null (LinkedAt) |
| MemoryPools.MemoryPool.SetNext | new/PoolAllocator/MemoryPool.hpp:244-247 | overwrites one chunk's header and nothing else |
| MemoryPools.GrowAsWritten | new/PoolAllocator/MemoryPool.hpp:164-206 | growMemoryArray as written, on the free list: success once the array allocation succeeds; the unchecked block's chunks, none if it failed, follow the list; with an old array, the member `free` then puts the word before it in front |
| MemoryPools.MemberFree | new/PoolAllocator/MemoryPool.hpp:99-117 | the member free on the list as written: a non-null argument's preceding word becomes the head |
| MemoryPools.GrowAsWrittenPushesOldArray | new/PoolAllocator/MemoryPool.hpp:179-200 | growth as written gives the corrected growth's list (old list, then the new block's chunks) with the old array's header word in front exactly when an old array existed |
| MemoryPools.OldArrayHandedOut | new/PoolAllocator/MemoryPool.hpp:74-96 | on a pool with blocks, the alloc after the list runs dry hands out the old block array as a chunk, whether or not the new block was obtained |
| MemoryPools.FreeBlocksAsWritten | new/PoolAllocator/MemoryPool.hpp:62-64 | the loop of destroy as written: the member free on each block in turn |
| MemoryPools.DestroyFreesAsWritten | new/PoolAllocator/MemoryPool.hpp:61-65 | destroy as written up to reset(): the list its member `free` calls leave |
| MemoryPools.FreeBlocksPushes | new/PoolAllocator/MemoryPool.hpp:62-64 | the loop pushes the header word of every block, the last block's in front, and keeps the old list behind them |
| MemoryPools.DestroyPushesAsWritten | new/PoolAllocator/MemoryPool.hpp:61-68 | destroy as written releases nothing: the words before every block and before the array go onto the list, m+1 more entries, which reset() then drops |
| MemoryPools.AllocAsWritten | new/PoolAllocator/MemoryPool.hpp:74-96 | alloc as written on top of that growth: it hands out the list's first address, and on a null head after reported growth it reads the header at null |
| MemoryPools.FailedBlockReachesNullHead | new/PoolAllocator/MemoryPool.hpp:179-195 | on a pool with no block array (after destroy, or an init whose array allocation failed), an empty list and a failed block allocation, growth as written reports success and leaves a null head, so alloc reads the header at null |
| MemoryPools.FreeThenAlloc | new/PoolAllocator/MemoryPool.hpp:71-117 | on a pool object, free(p) then alloc() returns p and leaves the head and free list as they were |
| MemoryPools.FreeListShape | new/PoolAllocator/MemoryPool.hpp:74-94 | the head alloc tests and pops is null exactly for an empty free list and otherwise its first chunk; the free chunks are distinct chunks of the blocks |
| MemoryPools.AllocAll | new/PoolAllocator/MemoryPool.hpp:71-97 | allocating until the list is empty hands out the free list in order, distinct chunks of the existing blocks, and never grows the array |
| MemoryPools.FillThenGrow | new/PoolAllocator/MemoryPool.hpp:71-97 | with capacity C all free, C allocations hand out the free list in order: C distinct owned chunks of the existing blocks, with the array size unchanged. The (C+1)-th grows the array by exactly one block iff both allocations succeed, and returns that block's first chunk iff blocks hold chunks; as written it returns the old block array (OldArrayHandedOut) |

## Left out

- Handle reconstruction from a bare payload pointer (`ObjectPool/ObjectPool.hpp:40-48`) and the `pool` back-pointer it uses: layout-dependent pointer casting.
- `std::weak_ptr` / `shared_from_this` lifetime: pool liveness is the boolean `alive`, and `Teardown` ends it.
- The creation and destruction callbacks (`std::function`), placement-new, explicit destructor calls and `memset`: foreign calls and raw memory. A new block is modelled as zero-filled slots.
- `MAX_BLOCKS` is written as `std::numeric_limits<uint8_t>::max` without a call. The model takes it to be the constant 255, which is also the size of the block table.
- ObjectPools.Handle.IsValid: after the pool's destructor (`ObjectPool/ObjectPool.hpp:216-219`) the source's `isValid` and `get` read the serial from freed memory. The model answers "not valid" once the pool is gone, which is what the weak reference is meant to ensure.
- ObjectPools.ObjectPool.CreateObject: requires a pool that still exists, since a member of a destroyed pool cannot be called.
- ObjectPools.ObjectPool.constructor: assumes the first block is allocated; a failing `new MemoryBlock` is modelled by `Create`, which then returns bad_alloc and makes no pool.
- ObjectPools.ObjectPool.constructor: requires `0 < sizeof(Object) <= blocksize`, so that OBJECTS_PER_BLOCK is positive. With a larger `Object` the source divides by zero at `ObjectPool/ObjectPool.hpp:142`.
- ObjectPools.BlockIdAsWritten: a block number of 256 or more does not fit the `uint8_t` at `ObjectPool/ObjectPool.hpp:142`. That conversion from `double` is undefined in C++; the model takes the common wrap-around modulo 256.
- ObjectPools.Handle.Get: models only the intended "payload iff valid" behaviour; the template as written is not valid C++.
- ObjectPools.Handle.Destroy: the handle is a value, so the emptied handle is returned rather than overwritten in place.
- The `size_t` counters (`mBack`, serials, `mDestructionOffset`) are unbounded integers; wrap-around after 2^64 operations is not modelled.
- MemoryPool's `sInstance` singleton and `get()`, and the `_DEBUG` reporting: global state and console output.
- `malloc` and `free` themselves. Each `malloc` outcome is a boolean parameter. The intended releases are modelled as `Destroy` returning the released blocks and the released block array; the old block array that `growMemoryArray` means to release (`new/PoolAllocator/MemoryPool.hpp:199-200`) is replaced and not reported. As written these calls reach the member `free` instead (see Findings).
- `getObjectSize` and `isInitialized` are plain reads of the fields `objectSize` and `isInitialized`.
- The destructor of `MemoryPool` calls `destroy`, which is modelled; object lifetime itself is not.
- MemoryPools.MemoryPool.Free: takes the chunk rather than a raw data pointer. `DataOffset`'s contract states that stepping back one header from the pointer `alloc` returned finds that chunk.
- MemoryPools.MemoryPool.Free: requires an owned chunk that is not already free. The source does not check this; a foreign or double-freed pointer corrupts its list.
- MemoryPools.MemoryPool.Init: with `num_objects == 0` the source sets the head to a block of zero bytes. `alloc` then reads a header outside it. The model keeps the list empty, and alloc returns null; `GrowAsWritten` likewise adds no chunk for a zero-chunk block.
- MemoryPools.MemoryPool.AllocateNewMemoryBlock: the unsigned products `blockSize * mNumObjects` and `sizeof(unsigned char*) * (mMemArraySize + 1)` are exact. Overflow of `size_t` is not modelled.
- `CHUNK_HEADER_SIZE` is 8, the pointer size on 64-bit targets.
- The code is split differently from the source so that each proof stays small:
  - object pool: `AddBlock`, `PlaceObject`, `Emplace`, `RetireRecord`;
  - chunk allocator: `CopyBlocks`, `AllocateNewMemoryBlock`/`ThreadChunks`, `FindTail`, `AttachBlock`, `InstallBlock`, `PopHead`.

  Together they perform the source's statements in the source's order.

## Findings

| source | as written | input that shows it | evidently intended | confidence | as-written member | corrected member |
|---|---|---|---|---|---|---|
| ObjectPool/ObjectPool.hpp:147 | grows only when `block_id > mNumBlocks` | one full block: `mBack == OBJECTS_PER_BLOCK`, `block_id == 1 == mNumBlocks`, so no block is added and `mBlocks[1]` is used unallocated | grow when the target block does not exist (`>=`) | not executed | ObjectPools.GrowthTestMissesFullTable | ObjectPools.ObjectPool.CreateObject |
| ObjectPool/ObjectPool.hpp:142-145 | block id stored in a `uint8_t` and tested with `block_id > MAX_BLOCKS` | `mBack == 255*OBJECTS_PER_BLOCK` gives block id 255, past the 255-entry table; `256*OBJECTS_PER_BLOCK` does not fit the `uint8_t` (undefined, commonly wraps to block 0) | fail with bad_alloc once the target block is past the table | not executed | ObjectPools.CeilingTestNeverFires | ObjectPools.ObjectPool.CreateObject |
| ObjectPool/ObjectPool.hpp:193 | throws only when `index > mBack` | `index == mBack` reads the slot past the last live object | throw when `index >= mBack` | not executed | ObjectPools.AccessTestAdmitsBack | ObjectPools.ObjectPool.At |
| ObjectPool/ObjectPool.hpp:51 | compares the serials and `rhs.mObject == rhs.mObject` | two handles to different records, both at serial 1, compare equal | compare record, serial and pool | not executed | ObjectPools.HandleEqualityIgnoresRecord | ObjectPools.Handle.Equals |
| new/PoolAllocator/MemoryPool.hpp:179 | stores the result of `allocateNewMemoryBlock` without a NULL test and reports success | a pool with no block array (after `destroy()`, or an `init` whose array `malloc` failed), empty list, array `malloc` succeeds, block `malloc` fails: head becomes NULL and `alloc` reads `getNext(NULL)`. With an array, line 200 makes the head the old array instead | report failure so that `alloc` returns null | not executed | MemoryPools.FailedBlockReachesNullHead | MemoryPools.MemoryPool.GrowMemoryArray |
| new/PoolAllocator/MemoryPool.hpp:199-200 | `free(mRawMemoryArray)` inside the class calls the member `free(void*)` (line 99), which pushes the word before the old array onto the free list | the constructor's `init(1024)`, then 1025 `alloc()` calls: the 1025th grows, and hands out the old 8-byte array as a chunk instead of the new block's first chunk | release the old array with `::free` | not executed | MemoryPools.OldArrayHandedOut | MemoryPools.FillThenGrow |
| new/PoolAllocator/MemoryPool.hpp:62-65 | `free(mRawMemoryArray[i])` and `free(mRawMemoryArray)` call the member `free(void*)`, which pushes the word before each block and before the array onto the list; `reset()` then drops the list | `destroy()` on a pool with one block: nothing is released, and the words before the block and the array are overwritten | release every block and the array with `::free` | not executed | MemoryPools.DestroyPushesAsWritten | MemoryPools.MemoryPool.Destroy |
