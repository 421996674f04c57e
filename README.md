# Insert buffer manager of the vector database engine

This project models `MemManagerImpl`, the in-memory insert buffer manager of the storage engine, and proves properties of the model.

The manager keeps two structures:

- `memMap`: one mutable buffer per collection id.
- `immuList`: a list of sealed buffers waiting to be serialised, in the order they were sealed.

Its operations do four things:

- Insert and delete requests are routed to the collection's mutable buffer, which is created on first use.
- Sealing moves a buffer from the map to the tail of the list.
- Flushing takes the whole list and serialises it in order, stopping at the first failure.
- Erasing drops buffers, and the memory queries sum the buffers' counters.

An insert is validated against the collection's schema before any buffer is touched:

- Every schema field must be present in the chunk.
- A field holding a null pointer is skipped.
- Every other field must hold exactly `count * row width` bytes.
- The row width comes from a fixed per-type table. For vector fields it comes from the dimension parameter.

Files:

- `types.dfy` (module `MemTypes`): statuses, errors, schema fields and data chunks.
- `chunk_validation.dfy` (module `ChunkValidation`): the validation as pure functions. It is proved equal to a declarative acceptance predicate, and the first-error behaviour is proved as well.
- `mem_collection.dfy` (module `MemCollections`): the per-collection buffer and the specification functions over buffer lists, with their lemmas. The buffer's implementation is not part of this model, so it is an opaque class:
  - a collection id and a memory counter;
  - a ghost log of the requests it was handed;
  - a status and a new counter value chosen by the buffer, which the manager cannot predict.
- `mem_manager.dfy` (module `MemManager`): the manager as a class over `memMap` and `immuList`. Each public method is modelled as one atomic step. The source's methods take one or two mutexes, in places in separate critical sections; the locks are not modelled (see "Left out").

## Model

| member | source | states |
|---|---|---|
| ChunkValidation.TruncDiv | core/src/db/insert/MemManagerImpl.cpp:125 | the quotient rounds toward zero: for non-negative dividends the remainder is in [0, d), and for negative ones in (-d, 0] |
| ChunkValidation.CheckField | core/src/db/insert/MemManagerImpl.cpp:63-134 | one field check succeeds exactly when the field is acceptable. MissedField is reported exactly when the name is absent. MissingDimension is reported exactly when a non-null vector field has no dimension. No other error is possible |
| ChunkValidation.RowWidthOf | core/src/db/insert/MemManagerImpl.cpp:79-131 | only a type outside the table goes unchecked. A vector field without a dimension has no width. Bool and Int8 take 1 byte a row, Int16 2, Int32 and Float 4, Int64 and Double 8. A float vector takes 4 bytes per dimension, and a binary vector of non-negative dimension takes the dimension divided by 8, rounded down |
| ChunkValidation.ValidateFields | core/src/db/insert/MemManagerImpl.cpp:63-135 | an empty field list succeeds. Success means every field is acceptable in the chunk. A failure is a missed field, a missing dimension or an illegal data size |
| ChunkValidation.ValidateChunk | core/src/db/insert/MemManagerImpl.cpp:49-60 | a null chunk is refused with NullChunk before the snapshot is consulted. A failed snapshot lookup passes its own error on. Success implies a chunk and a schema were both present |
| ChunkValidation.ValidateFieldsCorrect | core/src/db/insert/MemManagerImpl.cpp:62-137 | the schema-order field loop succeeds exactly when every schema field is acceptable in the chunk |
| ChunkValidation.ValidateChunkCorrect | core/src/db/insert/MemManagerImpl.cpp:62-137 | for a present chunk and schema, validation succeeds if and only if every schema field is present and is null or of size `count * row width` |
| ChunkValidation.ValidateFieldsFirstError | core/src/db/insert/MemManagerImpl.cpp:63-131 | a failing field loop returns the error of some field, and every field before that one is acceptable |
| ChunkValidation.ValidateChunkFirstError | core/src/db/insert/MemManagerImpl.cpp:63-131 | a failing validation reports the first unacceptable field of the schema, with that field's own error |
| ChunkValidation.MissingFieldRejected | core/src/db/insert/MemManagerImpl.cpp:64-69 | a schema field with no entry in the chunk makes validation fail |
| ChunkValidation.NullFieldsSkipped | core/src/db/insert/MemManagerImpl.cpp:70-72 | a chunk whose schema fields are all null pointers validates, whatever the types and the row count |
| ChunkValidation.ExtraFieldIgnored | core/src/db/insert/MemManagerImpl.cpp:62-64 | changing or adding a chunk entry that names no schema field does not change the validation result |
| MemCollections.MemCollection.constructor | core/src/db/insert/MemManagerImpl.cpp:32 | a new buffer has the given collection id, a zero counter and no requests |
| MemCollections.MemCollection.Add | core/src/db/insert/MemManagerImpl.cpp:145 | the buffer's log gains exactly the add request, and the status is success or a failure of this buffer |
| MemCollections.MemCollection.Delete | core/src/db/insert/MemManagerImpl.cpp:154 | the buffer's log gains exactly the delete request, and the status is success or a failure of this buffer |
| MemCollections.MemCollection.EraseMem | core/src/db/insert/MemManagerImpl.cpp:253 | the buffer's log gains exactly the partition-erase request |
| MemCollections.MemCollection.Serialize | core/src/db/insert/MemManagerImpl.cpp:189 | the buffer's log gains exactly the serialise request. The status is success or a failure of this buffer. Its new counter is chosen by the buffer |
| MemCollections.MemCollection.GetCurrentMem | core/src/db/insert/MemManagerImpl.cpp:273 | returns the buffer's memory counter |
| MemCollections.WithoutMembers | core/src/db/insert/MemManagerImpl.cpp:235-241 | the filtered list is no longer than the original. It holds exactly the original's buffers of other collections |
| MemCollections.WithoutAppend | core/src/db/insert/MemManagerImpl.cpp:236-240 | filtering distributes over concatenation, so the kept buffers stay in their relative order |
| MemCollections.WithoutDistinct | core/src/db/insert/MemManagerImpl.cpp:236-241 | filtering a list without repeats gives a list without repeats |
| MemCollections.WithoutIdempotent | core/src/db/insert/MemManagerImpl.cpp:236-241 | filtering twice by the same collection id is the same as filtering once |
| MemCollections.WithoutNoMatch | core/src/db/insert/MemManagerImpl.cpp:236-241 | a list with no buffer of the collection is left unchanged |
| MemCollections.IdsOfMembers | core/src/db/insert/MemManagerImpl.cpp:187-195 | an id is among a list's collection ids exactly when some buffer of the list has it |
| MemCollections.IdsOfAppend | core/src/db/insert/MemManagerImpl.cpp:186-196 | the ids of a concatenation are the union of the ids of its parts |
| MemCollections.IdsOfPrefix | core/src/db/insert/MemManagerImpl.cpp:186-196 | the ids of a prefix are among the ids of the whole list |
| MemCollections.IdsOfMapValues | core/src/db/insert/MemManagerImpl.cpp:218-221 | a list holding exactly a map's buffers, each under its own id, has the map's keys as its ids |
| MemCollections.SealedCoversAll | core/src/db/insert/MemManagerImpl.cpp:218-219 | after the map's buffers are sealed behind an old list, every buffer of the map and of the old list is in the new list |
| MemCollections.ListMemAppend | core/src/db/insert/MemManagerImpl.cpp:282-284 | the memory of a concatenation of buffer lists is the sum of the parts' memory |
| MemCollections.SumValuesRemove | core/src/db/insert/MemManagerImpl.cpp:272-274 | the total of the map's counters can be summed starting from any key, so the total does not depend on the map's iteration order |
| MemManager.MemManagerImpl.GetMemByCollection | core/src/db/insert/MemManagerImpl.cpp:26-35 | an existing buffer is returned with the map unchanged. Otherwise a fresh, empty buffer is stored under the id and no other key is touched. The buffer carries the requested id |
| MemManager.MemManagerImpl.InsertEntities | core/src/db/insert/MemManagerImpl.cpp:38-46 | a failed validation returns its error, and the map and every buffer are unchanged. On success, exactly the collection's buffer (found or created) receives the chunk. Every other buffer and the list are unchanged |
| MemManager.MemManagerImpl.InsertEntitiesNoLock | core/src/db/insert/MemManagerImpl.cpp:141-147 | the collection's buffer, found or created, gains exactly the add request. No other buffer, key or list entry changes. The buffer's status is returned |
| MemManager.MemManagerImpl.DeleteEntities | core/src/db/insert/MemManagerImpl.cpp:150-160 | the collection's buffer, found or created, gains exactly the delete request. No other buffer, key or list entry changes. The status is success or that buffer's failure |
| MemManager.MemManagerImpl.ToImmutable | core/src/db/insert/MemManagerImpl.cpp:202-212 | a present buffer is appended to the list's end and its key removed. An absent id changes nothing. Other keys are untouched. The total memory is preserved |
| MemManager.MemManagerImpl.ToImmutableAll | core/src/db/insert/MemManagerImpl.cpp:215-224 | the map ends empty, and the list keeps its old entries as a prefix. It grows by exactly the map's former size, and the appended part holds each former buffer once, under its own id. Sealed memory becomes the former total |
| MemManager.SealOrder | core/src/db/insert/MemManagerImpl.cpp:218-220 | the map loop lists each buffer of the map exactly once, under its own id, and their memory is the map's total |
| MemManager.SealStep | core/src/db/insert/MemManagerImpl.cpp:218-220 | one iteration of the sealing loop preserves the progress invariant |
| MemManager.SealAppend | core/src/db/insert/MemManagerImpl.cpp:219 | appending the sealed buffers keeps the list free of repeats and adds their memory, and the old list stays a prefix |
| MemManager.SealedAllFacts | core/src/db/insert/MemManagerImpl.cpp:172-174 | after sealing everything, the list's ids are the former keys plus the former list's ids, and its buffers are exactly the former buffers |
| MemManager.SerializeAll | core/src/db/insert/MemManagerImpl.cpp:186-198 | on success every listed buffer was serialised once and the ids gained all their ids. On failure it stops at buffer k with that buffer's error: the buffers up to k were serialised, only those before k had ids added, and the rest were never asked |
| MemManager.MemManagerImpl.InternalFlush | core/src/db/insert/MemManagerImpl.cpp:178-199 | the list is empty afterwards, whatever the outcome. The mutable buffers are untouched. The outcome over the former list is as SerializeAll states, and a failure is a BufferError of a collection in the former list |
| MemManager.MemManagerImpl.Flush | core/src/db/insert/MemManagerImpl.cpp:163-168 | the collection's buffer is sealed and the list emptied. On success every buffer of the former list, and the sealed one, was serialised once. On failure the error is a BufferError of a collection in the former list or of the flushed collection, if it had a buffer. The other mutable buffers are untouched |
| MemManager.MemManagerImpl.FlushAll | core/src/db/insert/MemManagerImpl.cpp:171-175 | the map and the list end empty. The ids gain at most the former keys and the former list's ids, and on success exactly those. On success every former buffer was serialised once. On failure the error is a BufferError of a collection among the former keys and the former list's ids |
| MemManager.MemManagerImpl.EraseMem | core/src/db/insert/MemManagerImpl.cpp:227-245 | the key is dropped from the map, and the list is filtered to the buffers of other collections, in their order |
| MemManager.MemManagerImpl.EraseMemPartition | core/src/db/insert/MemManagerImpl.cpp:248-266 | keys and list are unchanged. The collection's mutable buffer, if any, and every sealed buffer each receive exactly one partition-erase request. Other mutable buffers are untouched |
| MemManager.MemManagerImpl.GetCurrentMutableMem | core/src/db/insert/MemManagerImpl.cpp:268-276 | returns the sum of the mutable buffers' counters |
| MemManager.MemManagerImpl.GetCurrentImmutableMem | core/src/db/insert/MemManagerImpl.cpp:278-286 | returns the sum of the sealed buffers' counters |
| MemManager.MemManagerImpl.GetCurrentMem | core/src/db/insert/MemManagerImpl.cpp:288-291 | returns the sum of the mutable and the sealed memory |

## Left out

- Locks: the mutexes `mutex_` and `serialization_mtx_` are not modelled, and each public method is modelled as one atomic step. The source does not hold one lock across every method, so these interleavings are not captured:
  - `InsertEntities` validates the chunk before it takes `mutex_` (core/src/db/insert/MemManagerImpl.cpp:39-44).
  - Both `Flush` overloads seal under `mutex_` and serialise in a separate call (core/src/db/insert/MemManagerImpl.cpp:164-167, 172-174).
  - `InternalFlush` swaps the list out under `mutex_` and then serialises under `serialization_mtx_` only (core/src/db/insert/MemManagerImpl.cpp:180-185). The model empties the list after the loop; as one atomic step, the final state is the same.
  - Both `EraseMem` overloads work on the map under `mutex_` and on the list under `serialization_mtx_`, in two critical sections (core/src/db/insert/MemManagerImpl.cpp:229-242, 250-263).
  - `GetCurrentImmutableMem` reads the list under `serialization_mtx_` only (core/src/db/insert/MemManagerImpl.cpp:281). `ToImmutable` appends to it under `mutex_` (core/src/db/insert/MemManagerImpl.cpp:203-207), and so does the list swap of `EraseMem` under the other mutex.
- MemManagerImpl.constructor: the manager's declaration and constructor are in its header, which is not part of this model. That a new manager starts with an empty `mem_map_` and `immu_mem_list_` is an assumption of the model.
- Logging and the fault-injection hooks are not modelled.
- The snapshot lookup is a singleton outside this file. It is an input instead: either the schema, as the ordered list of fields with each field's type and optional dimension, or the error the lookup returned.
- Status messages: a status is an error constructor naming the failed field or collection. The message strings are not modelled.
- The buffer's own add, delete, erase and serialise logic, and its memory accounting, are not part of this model. Their statuses and new counter values are chosen nondeterministically, and their effect is a ghost request log. Disk I/O in serialisation is not modelled.
- Integers are unbounded. The size comparison in validation does not model `size_t` wrap-around of `count * row width` for huge counts. It also does not model the conversion of a negative row width (from a negative dimension) to an unsigned value. For `count > 0`, both forms reject a negative row width. The memory totals do not model `size_t` overflow.
- ToImmutableAll: the map's iteration order is not stated, because the map's declaration is not part of this model. The contract fixes which buffers are appended, not their order. The buffers are collected in one loop and appended to the list together, which is observably the same under the lock.
- Flush: on failure, the contract says only which collection the error names and that the other mutable buffers are untouched. Which buffers were serialised before the failure is stated by InternalFlush, which Flush calls with that same list, but it is not restated in Flush's contract.
- FlushAll: on failure, the contract says only which collection the error names. Which buffers were serialised before the failure is stated by InternalFlush over the sealed list, but it is not restated in FlushAll's contract.
- Field dimensions: the source reads the dimension from the field's JSON parameters and converts it to `int64_t`. A non-numeric value makes the conversion throw, and a fractional one is truncated. The model takes the dimension as an optional integer, so neither case is modelled.
- Overloads: the two overloads of `Flush`, `ToImmutable` and `EraseMem` are modelled as `Flush`/`FlushAll`, `ToImmutable`/`ToImmutableAll` and `EraseMem`/`EraseMemPartition`.
- EraseMemPartition: the C++ passes the partition erase to every sealed buffer, whatever its collection. The model does the same. The unused local list in that function is left out.
- The end-to-end compaction tests drive a live server and have no logic of this component to model.
