# OrcaDB in Dafny

A model of OrcaDB, an in-memory key-value store in C with a Robin Hood hash table, an
append-only log, snapshots, an HTTP front end and a sharded engine, and proofs about it.
The code is modelled as it is written. Where a property fails, a lemma gives an input on
which it fails and another says exactly when it holds.

| file | what it models |
|---|---|
| Bytes, Bits | byte strings and C strings; masks, powers of two, exclusive or |
| Hash | FNV-1a, djb2 and the snapshot checksum |
| Table, Runs | the slot array as a value, at a power of two: probing, displacement, tombstones, whole runs against a map |
| Loops, Segments, Capacity, Deletes | the loops as they mask, at any capacity; the segments that masking makes; which capacities serve how many keys; runs with deletes at any capacity |
| HashTable | the table as the C code updates it, in place, against Loops |
| Tombstones | runs on which the table stops agreeing with a map |
| Repaired | a repaired treatment of tombstones, which agrees with a map on all runs in which puts find room |
| LogCodec, Lines, Aof, Restore | the text of the log, lines of it that nothing has appended, the log file and its fsync policy, replay into a table |
| Recovery | handlers, snapshots, log compaction, crashes and restarts as a state machine |
| Server | the three handlers on table and log, the restart, and what reaches the log |
| Storage, Format | the snapshot format, its checksum, saving and loading; the file byte by byte, and exactly which files load |
| RingBuffer, Shard, Answers | the ring one atomic access at a time; the engine of client, rings, workers and their tables; that its calls are answered |
| Parse, Requests, AnyBytes, Conn | the request parser; requests as a client writes them, and what the parser makes of them; the parser on any bytes at all; the connection that feeds it |

Functions and lemmas of the table take the hash function as a parameter `H`; the server
uses `Hash.Fnv1a`. Sizes are mathematical integers with the C widths written out: 16 bits
for the lengths and the probe distance of a slot, 32 for the checksum and for int, 64 for
hashes, counters and size_t. Every induction is spelled out in the body of its lemma
(`{:induction false}`). What files, sockets and the clock answer are parameters.

## What holds, and what does not

- Without deletes, at a power of two of slots, the table is a map, for keys that hash to
  something other than 0 and have fewer than 2^16 bytes, as long as there are no more of
  them than slots (`Runs.PutRunIsMap`, `Loops.StorableExactly`); a key with hash 0 exists
  (`Hash.ZeroHashKey`). The one exception is the absent key of a full table of 2^16 slots
  or more: the probe distance is a uint16_t that wraps around, and hm_get and hm_delete
  come back unless a whole round of the slots stops them nowhere (`Runs.ProbeCases`). An
  unused slot always stops them (`Table.UnusedEnds`); a run of puts after which hm_get
  never comes back is in `Runs.FullHouseNeverAnswers`.
- At other capacities masking cuts the slots into segments, each a table of its own, and
  reaches only some of them. Under any hash function, FNV-1a too, a run of puts of fewer
  than 2^16 keys is a map exactly when no segment gets more keys than it has slots
  (`Capacity.FewKeysExactly`), and without that bound every key put is found exactly then
  (`Capacity.SpreadExactly`). n keys are served under every hash function exactly when n is
  below the largest power of two that divides the capacity, or equal to it and below 2^16
  (`Capacity.ServesExactly`). db_load asks for capacities that are no power of two
  (`Capacity.LoadServesExactly`).
- With deletes, what the callers of the table see after a call is the map exactly when a
  condition on the tombstones, checkable before the call, holds (`Runs.StepRefines`), and
  at every moment of a run exactly when every call of it was allowed (`Runs.RunExactly`);
  at other capacities the same holds with the segment of the key in place of the table
  (`Deletes.RunExactlyAll`);
  `Tombstones` has the runs that hide a key, store one twice, or miscount. With keys whose
  hash is not 0, `count` comes to differ from the number of live slots exactly by a delete
  that finds a tombstone (`Runs.CountExactly`). A deleted key is still found
  (`Runs.DeletedKeyStillFound`), which tests/map.test.c:34 and consistency.test.sh:41
  expect not to happen. `Repaired` has no such condition: a put needs its key to be live or
  a slot that was never used, and nothing else. A tombstone does not count as room there,
  so a table that goes on taking new keys leaves its results once all slots were used.
- A log of accepted operations rebuilds the live table slot for slot
  (`Server.Restart`) when every record fits its line, which is so exactly when the bytes it
  needs are at most 4095 with no newline but in the last place (`LogCodec.FitsExactly`);
  for what the handlers accept that is a matter of length and of a newline in the key of a
  PUT (`Server.HandledPutExactly`). Under EVERYSEC a crash that keeps the flushed bytes
  keeps all operations but some of the second of the last sync (`Server.EverySecKeeps`).
- aof_replay reads a record that a crash has torn from a buffer that still holds the lines
  before it. What becomes of it is stated for every cut and every buffer
  (`LogCodec.LineExact`, `LogCodec.TornExactly`): passed over when cut inside SET or DEL or
  right before a length, the end of the process when cut inside a length
  (`LogCodec.CutOutcomes`), at every start (`LogCodec.TornInLengthKills`); behind its key a
  SET takes the value of an earlier record (`LogCodec.TornSetTakesStale`), and a DEL cut
  in its key deletes another one (`LogCodec.TornDelete`). The record appended behind a torn
  one can be lost with it (`Recovery.TornLosesNext`).
- Snapshot, compaction and log together restore exactly the accepted operations exactly
  when the log mentions every key of the snapshot (`Recovery.RecoverExactly`), and at every
  moment of a run exactly when the run is safe (`Recovery.ServerRecovers`), with
  crashes that cut the log between records; a compaction after a failed save can break this
  (`Recovery.FailedSaveResurrects`), and the server as it stands, which takes no snapshots,
  cannot (`Recovery.ShippedServerRecovers`).
- No snapshot that db_save writes is ever loaded, since it writes seven bytes of magic and
  db_load reads six (`Storage.SavedFileNeverLoads`); and its loops never come to an end
  (`Storage.SaveReturnsExactly`). With both put right a load reads as many records as the
  `count` of the table says, which is wrong after a second delete of a key: all keys come
  back exactly when `count` is the number of keys and no segment of the new table gets more
  of them than it has slots (`Storage.SaveThenLoad`), so after a run only if no delete of
  it found a tombstone (`Storage.RunSavedExactly`). After PUT a, PUT b, DELETE a, DELETE a
  nothing comes back (`Storage.LoadsNothing`). At the capacity of db_load the segments are
  sure to do for at most 512 keys or a power of two of them.
- The ring is a FIFO queue under every interleaving while fewer items than slots have been
  read; from then on its full test never says full (`RingBuffer.PlainNeverFull`) and it
  overwrites unread items. With both sides of the test masked it is one for ever.
- The sharded engine as written dies as its first db_insert is served, since that call
  leaves the status a null pointer and the worker writes through it; up to there every
  db_get is answered with NULL (`Shard.AsWrittenDies`). With a status that can be written
  to, one of the three repairs that `Shard.Repairs` names, it answers as one map under
  every interleaving (`Shard.StoreIsOneMap`) of the requests that found room; db_insert
  drops the others (`Shard.InsertOnceExactly`, `Shard.PutDropped`), and db_get never
  returns again once a ring has served as many requests as it has slots
  (`Shard.GetNeverReturns`), which the third db_get of a key can meet
  (`Shard.ThirdGetHangs`). All three repairs together make it one map for ever
  (`Shard.RepairedStoreIsOneMap`), and then every db_get of a key that is there, or whose
  table is not full, is answered and returns, under every schedule that lets its worker go
  on (`Answers.GetReturns`).
- A request is read back as its client wrote it, verb, path, the first eight parameters
  and a body of the length that its headers announce (`Requests.RequestBack`), is waited for
  while a byte of it is missing (`Requests.RequestWaits`), and reaches its handler with the
  key and the value of its query (`Server.PutRequest`, `Server.KeyRequest`).
- The requests dispatched, and the order and contents of them, do not depend on how the
  stream is cut into reads (`Conn.ChunkingIndependent`). How many are does: a read
  dispatches one at most, and a second complete one stays behind until the client sends
  more (`Conn.LeavesBehind`, `Conn.StrandedExactly`). A client that sends them one at a
  time has all of them dispatched (`Conn.OneByOne`), and of a response goes out exactly what
  the socket takes (`Conn.Connection.Writable`).

## Model

| member | source | states |
|---|---|---|
| Bits.MaskPow2 | src/core/hashmap/hashmap.c:18-20 | masking with a power of two less one is the remainder, so `idx` is the hash modulo the capacity |
| Bits.AllReachedExactly | src/core/storage/storage.c:162-165 | masking with capacity - 1 can reach every slot if and only if the capacity is a power of two |
| Bits.ReachedExactly | src/core/hashmap/hashmap.c:18-20 | a slot index is the index of some hash exactly when the mask leaves it alone |
| Bits.MaskSplit | src/core/hashmap/hashmap.c:18-20 | at any capacity the mask takes the remainder by the largest power of two that divides the capacity, and masks the quotient |
| Hash.ComputeFnv1a | src/core/hash/hash.c:5-14 | the loop computes FNV-1a, the function that FnvOneByte and ZeroHashKey are about |
| Hash.ComputeDjb2 | src/core/hash/hash.c:17-24 | the shift-and-add loop is the polynomial hash with multiplier 33 modulo 2^64 |
| Hash.ComputeChecksum | src/core/storage/storage.c:17-23 | the checksum loop is the polynomial hash with multiplier 31 modulo 2^32 |
| Hash.FnvStepInjective | src/core/hash/hash.c:10-11 | one xor-multiply step changes its result when the state alone or the byte alone is changed |
| Hash.FnvOneByte | src/core/hash/hash.c:5-14 | two keys of one length that differ in exactly one byte never collide, at any length |
| Hash.Djb2OneByte | src/core/hash/hash.c:17-24 | the same for djb2 |
| Hash.ChecksumOneByte | src/core/storage/storage.c:17-23 | changing one byte of a string of any length changes its checksum |
| Hash.HashesClosed | src/core/hash/hash.c:17-24 | djb2 and the checksum in closed form: 5381 times the power of 33 plus the bytes as coefficients of a polynomial in 33, modulo 2^64, and in 31, modulo 2^32 |
| Hash.ZeroHashKey | src/core/hashmap/hashmap.c:68 | an eight-byte key without NUL whose FNV-1a hash is 0, the mark of an empty slot |
| Table.RobinHood | src/core/hashmap/hashmap.c:84-90 | from the home up to a live slot every slot is occupied and at least as deep as its own distance from that home, around the end of the array too |
| Table.FindExactly | src/core/hashmap/hashmap.c:126-133 | one round of the early-exit search, its counter modulo 2^16, finds slot j if and only if it holds the key, live or deleted, and no slot on the way from its home is empty, shallower than the counter says there, or holds the key too |
| Table.FindIsScan | src/core/hashmap/hashmap.c:126-137 | one round of the search returns the same live slot as a scan of all slots, or a tombstone when the scan finds none |
| Table.UnusedEnds | src/core/hashmap/hashmap.c:126-137 | an unused slot anywhere in the table stops every probe, whatever the 16-bit counter has wrapped to by then |
| Table.FoundEnds | src/core/hashmap/hashmap.c:126-137 | a key that the search finds, live or deleted, stops the probe too |
| Table.KeysUnique | src/core/hashmap/hashmap.c:84-90 | no two live slots of a well-formed table share a key |
| Table.NewNodeMatches | src/core/hashmap/hashmap.h:21 | the node made for a key matches that key again exactly when the key has fewer than 2^16 bytes |
| Table.PlaceExactly | src/core/hashmap/hashmap.c:68-71 | placing the node in hand in an empty slot or over a tombstone keeps the table if and only if no live key is looked for across that slot deeper than the node |
| Table.SwapCarries | src/core/hashmap/hashmap.c:84-88 | a swap leaves a well-formed table without the displaced key, whose node can be placed further on; so comparing with the original key after a swap finds nothing to miss |
| Table.StopSwapped | src/core/hashmap/hashmap.c:84-90 | a swap does not move the slot at which the loop will stop, nor the distance in hand there |
| Table.InsertNew | src/core/hashmap/hashmap.c:66-91 | inserting a key that is not live: the loop ends at the predicted slot, adds that entry and loses or doubles none, and the table stays well formed if and only if the stop cuts no live key off |
| Table.InsertStored | src/core/hashmap/hashmap.c:66-91 | inserting a live key updates its slot, or takes the first tombstone before it |
| Table.InsertOfNew | src/core/hashmap/hashmap.c:43-91 | the call on a key that is not live, with a free slot: it ends, conserves the other entries, and keeps the table exactly under InsertKeeps; otherwise some live key is no longer found |
| Table.InsertOfLive | src/core/hashmap/hashmap.c:43-91 | the same on a live key, which is counted again when InsertKeeps fails |
| Table.CutIsLost | src/core/hashmap/hashmap.c:126-133 | a live slot behind a shallower one is not found any more, nor is anything in its place |
| Runs.ContentsHas | src/core/hashmap/hashmap.c:66-91 | the map of a table binds exactly what some live slot binds, one binding for each live slot |
| Runs.InsertIsUpdate | src/core/hashmap/hashmap.c:43-91 | with a free slot, or for a live key, hm_insert ends, and keeps the table well formed if and only if InsertKeeps holds; then the entries are the old ones with the key rebound, and `count` grows exactly when the key was not live; if not, a live key is counted twice or another live key is lost to the search |
| Runs.PutEndsExactly | src/core/hashmap/hashmap.c:66-91 | the loop of hm_insert, its counter wrapping at 2^16, ends if and only if a slot is free, the key is live, or the probe for the key would stop |
| Runs.InsertWithoutTombs | src/core/hashmap/hashmap.c:68-71 | without tombstones every insertion keeps the table |
| Runs.ReinsertKeeps | src/core/hashmap/hashmap.c:68-71 | putting a deleted key back keeps the table when the search still finds its tombstone and no other key has one |
| Runs.FullInsertDrops | src/core/hashmap/hashmap.c:66-91 | on a full table, when the loop ends for a new key, exactly one other key loses its entry and `count` stays |
| Runs.InsertConserves | src/core/hashmap/hashmap.c:66-91 | a call that ends costs no other key its entry if and only if a slot is free or the key is live |
| Runs.ProbeCases | src/core/hashmap/hashmap.c:123-137 | on a well-formed table of any size the probe of hm_get and hm_delete ends if and only if it is stopped within one round of the slots, which it is when the key is live or buried; then it is at the live slot of the key, at a tombstone of it in reach, or nowhere |
| Runs.FindCases | src/core/hashmap/hashmap.c:126-137 | one round of the search ends at the live slot of the key, at a tombstone of it in reach, or nowhere, and which of the three says whether the key is live, buried or neither |
| Runs.DeleteIsRemove | src/core/hashmap/hashmap.c:144-169 | hm_delete ends exactly when its probe does; then it keeps the table, removes the key's entry and no other, and returns 0 if and only if the key was live or its tombstone can be found |
| Runs.GetIsLookup | src/core/hashmap/hashmap.c:119-139 | hm_get ends exactly when its probe does, always for a live key; then it answers as the map of live entries if and only if no tombstone of the key, still pointing at a value, lies where its search gets |
| Runs.DeletedKeyStillFound | src/core/hashmap/hashmap.c:128-133 | a delete never changes what hm_get answers |
| Runs.StepRefines | src/core/hashmap/hashmap.c:43-169 | after any call on a table that agrees with a map, the call has ended and `count` and the search for every key are those of the updated map if and only if the call was allowed: for a put a storable key, room, and no tombstone where it stops, or one that is safe to take; for a delete no tombstone of a deleted key in reach and a probe that ends. The invariant holds under the same condition |
| Runs.AgreesServes | src/core/hashmap/hashmap.c:119-139 | a table that agrees with a map is seen as that map: every key is found with its entry |
| Runs.RunRefines | src/core/hashmap/hashmap.c:43-169 | over every run of allowed calls, each of which ends, the callers see the map, and hm_get, where it ends, answers from it for exactly the keys without a tombstone in reach that points at a value |
| Runs.RunExactly | src/core/hashmap/hashmap.c:43-169 | a run is allowed from start to end if and only if at every moment of it the call has ended and the callers see the map |
| Runs.CountExactly | src/core/hashmap/hashmap.c:159-161 | on any table of any capacity whose `count` is the number of live slots, doubled keys included, it is so after a call with a hash other than 0 if and only if the call is not a delete whose probe finds a tombstone |
| Runs.CountRunExactly | src/core/hashmap/hashmap.c:43-169 | so from a new table it is so at every moment of a run if and only if no delete of the run finds a tombstone |
| Runs.CountRunLags | src/core/hashmap/hashmap.c:159-161 | at the end of a run from a right `count`, it is less than the number of live slots by the number of deletes that found a tombstone, modulo 2^64 |
| Runs.CountEndExactly | src/core/hashmap/hashmap.c:43-169 | so after fewer than 2^64 calls `count` is the number of live slots if and only if no delete of the run found a tombstone |
| Runs.CreateAgrees | src/core/hashmap/hashmap.c:25-37 | a new table of a power of two of slots agrees with the empty map |
| Runs.RoomForAll | src/core/hashmap/hashmap.c:66-91 | without tombstones there is room for every key as long as the keys are no more than the slots |
| Runs.PutAllowed | src/core/hashmap/hashmap.c:43-91 | a put into a table without tombstones, with no more keys than slots, is allowed, ends and rebinds its key |
| Runs.PutRunAllowed | src/core/hashmap/hashmap.c:43-91 | every run of puts of storable keys that fit the capacity is allowed from start to end |
| Runs.PutRunIsMap | src/core/hashmap/hashmap.c:43-139 | after any run of puts of storable keys that fit a power of two of slots, `count` is the number of keys and every key put is answered with its last value; any other key is answered with NULL when its probe ends, as it does while a slot is unused or there are fewer than 2^16; Capacity has the other capacities |
| Runs.FullHouseNeverAnswers | src/core/hashmap/hashmap.c:123-137 | and it does not end after puts that fill 2^16 slots or more, for an absent key whose home is also that of all the others |
| Loops.UnstorableIsLost | src/core/hashmap/hashmap.c:128-133 | a key that hashes to 0 or is too long for 16 bits is never found in any table of any capacity |
| Loops.StorableExactly | src/core/hashmap/hashmap.c:68 | at any capacity hm_get answers a put on a new table if and only if the key has a hash other than 0 and fewer than 2^16 bytes |
| Segments.IdxSplit | src/core/hashmap/hashmap.c:18-20 | an index is the remainder of the hash by the largest power of two that divides the capacity, within a segment of that length that the hash chooses |
| Segments.IdxNext | src/core/hashmap/hashmap.c:90 | the masked increment goes round that segment and never leaves it |
| Segments.SegPut | src/core/hashmap/hashmap.c:66-91 | the masked insertion loop changes one segment, as the insertion into a table of that length would |
| Segments.SegProbe | src/core/hashmap/hashmap.c:126-137 | the masked probe with its 16-bit counter is one round of the search of that segment, when that round is stopped |
| Segments.SegFind | src/core/hashmap/hashmap.c:119-139 | at any capacity hm_get ends if and only if a round of its segment stops the probe, and then it is the search of that segment |
| Segments.ProbeIsFind | src/core/hashmap/hashmap.c:123-137 | at a power of two the probe ends if and only if a round of the table stops it, and then it is the search that Table is about |
| Segments.PutNever | src/core/hashmap/hashmap.c:66-91 | on a full table, when no slot in a round stops the probe for the key, hm_insert never ends |
| Capacity.PartsPut | src/core/hashmap/hashmap.c:43-91 | at any capacity, when no segment gets more keys than it has slots, a put of one of them ends and keeps every segment a table of its part of the map |
| Capacity.PartsAnswer | src/core/hashmap/hashmap.c:119-139 | such a table finds every key of the map with its entry, and answers any other with NULL when its probe ends, as it does when its segment has an unused slot or fewer than 2^16 slots |
| Capacity.CrowdedLoses | src/core/hashmap/hashmap.c:43-139 | of more keys than slots in a set that probes do not leave, with their homes there, some key is lost in every table |
| Capacity.SpreadExactly | src/core/hashmap/hashmap.c:43-139 | under any hash function, after a run of puts of storable keys all calls have ended and every key is found with its entry and counted, if and only if no segment gets more keys than it has slots |
| Capacity.RoomyIsMap | src/core/hashmap/hashmap.c:119-139 | when moreover no segment of 2^16 slots or more is filled, every other key is answered with NULL |
| Capacity.FewKeysExactly | src/core/hashmap/hashmap.c:43-139 | so a run of puts of fewer than 2^16 storable keys is a map, under any hash function, if and only if no segment gets more keys than it has slots |
| Capacity.ReachedBound | src/core/hashmap/hashmap.c:18-20 | under any hash function, more keys than the mask reaches slots are never served |
| Capacity.ReachedAllExactly | src/core/hashmap/hashmap.c:18-20 | the mask reaches as many slots as there are if and only if the capacity is a power of two |
| Capacity.ServesExactly | src/core/hashmap/hashmap.c:43-139 | for every n: every run of puts of n storable keys is a map, whatever the hash function, if and only if n is below the largest power of two that divides the capacity, or equal to it and below 2^16 |
| Capacity.NeverAnswers | src/core/hashmap/hashmap.c:123-137 | a run of puts that fills a segment of 2^16 slots or more, and a key that hm_get never answers after it |
| Capacity.FullTableExactly | src/core/hashmap/hashmap.c:18-37 | as many keys as slots are served, absent keys included, if and only if the capacity is a power of two below 2^16 |
| Capacity.LoadServesExactly | src/core/storage/storage.c:162-165 | at the capacity that db_load asks for, the keys of a snapshot are served whatever the hash function if and only if there are at most 512 of them or their number is a power of two |
| Deletes.CallSeg | src/core/hashmap/hashmap.c:43-169 | at any capacity a call changes the segment of its key, slots and `count`, as it would change that segment as a table of its own, ends exactly when it would there, and leaves the other segments alone |
| Deletes.CreateAll | src/core/hashmap/hashmap.c:25-37 | in a new table of any capacity every segment agrees with its part of the empty map |
| Deletes.StepExactly | src/core/hashmap/hashmap.c:43-169 | at any capacity, after any call on a table whose segments agree with their parts of a map, the call has ended and the callers see the updated map, and the segments agree with it, if and only if the call was allowed in the segment of its key as Runs.StepRefines says |
| Deletes.RunExactlyAll | src/core/hashmap/hashmap.c:43-169 | so over whole runs of puts and deletes at any capacity: every call is allowed in the segment of its key if and only if all calls end and at every moment the callers see the map |
| Deletes.RunAgrees | src/core/hashmap/hashmap.c:43-169 | after such a run every segment agrees with its part of the map |
| Deletes.GetExactly | src/core/hashmap/hashmap.c:119-139 | and hm_get ends exactly when a round of the segment stops its probe, always for a key of the map, and then answers from the map if and only if no tombstone of the key in reach points at a value |
| HashTable.HashMap.constructor | src/core/hashmap/hashmap.c:25-37 | hm_create gives the empty table, at any capacity |
| HashTable.HashMap.Insert | src/core/hashmap/hashmap.c:43-91 | the loop with its swaps in the array, whenever it ends, leaves exactly the slots and the count of Loops.Call, which Segments, Runs and Capacity are about |
| HashTable.HashMap.Probe | src/core/hashmap/hashmap.c:123-137 | the probe loop of hm_get and hm_delete, whenever it ends, on any slots |
| HashTable.HashMap.Get | src/core/hashmap/hashmap.c:119-139 | hm_get returns the value of the slot found, which Runs.GetIsLookup and Capacity.PartsAnswer are about |
| HashTable.HashMap.Delete | src/core/hashmap/hashmap.c:144-169 | hm_delete says whether a slot was found and leaves the slots and the count of Loops.Call |
| Tombstones.TombstoneHidesKey | src/core/hashmap/hashmap.c:68-71 | after PUT a, b, c, DELETE b, PUT d the node of c is in the table, hm_get answers NULL for it, and a map would not |
| Tombstones.TombstoneDoublesKey | src/core/hashmap/hashmap.c:68-71 | after PUT a, b, DELETE a, PUT b, DELETE a the table has two live nodes for b, and `count` is 2 where a map has one key |
| Tombstones.RepeatedDeleteMiscounts | src/core/hashmap/hashmap.c:159-161 | a second delete of a key reports success and makes `count` one less than the number of keys |
| Tombstones.FullTableEvicts | src/core/hashmap/hashmap.c:84-91 | in a table of one slot a second key evicts the first and `count` stays 1 |
| Tombstones.ClashExists | src/core/hash/hash.c:5-14 | with FNV-1a the keys a, e, i and b clash as those runs need in a table of four slots |
| Repaired.FindAliveExact | src/core/hashmap/hashmap.c:126-137 | repair: one round of the probe that tests the tombstone flag, with the 16-bit counter, finds a key if and only if it is live |
| Repaired.AliveEndsExactly | src/core/hashmap/hashmap.c:126-137 | repair: the loop of that probe ends if and only if a round of the slots stops it, always for a live key, and then says what the round says |
| Repaired.GetLiveIsLookup | src/core/hashmap/hashmap.c:119-139 | repair: get answers as the map of live entries for every key |
| Repaired.RemoveIsRemove | src/core/hashmap/hashmap.c:144-169 | repair: delete keeps the table, removes the key, and reports success exactly when it was live |
| Repaired.WalkAdds | src/core/hashmap/hashmap.c:66-91 | repair: the walk that reuses a tombstone only with a node at least as deep ends, keeps the table and adds exactly its node |
| Repaired.PutIsUpdate | src/core/hashmap/hashmap.c:43-91 | repair: a put of a live key, or with a slot that was never used, rebinds exactly its key |
| Repaired.RepairedRunRefines | src/core/hashmap/hashmap.c:43-169 | repair: over every run of puts and deletes, of any length, in which each put finds its key live or a slot that was never used (a tombstone does not count) and each delete a probe that ends, the table is the map, and get, where its probe ends, answers from it; it ends for every key of the map |
| Repaired.NewPutsSpare | src/core/hashmap/hashmap.c:66-91 | repair: a run is such a run as long as the used slots and the puts of absent keys are fewer than the slots, or as many and fewer than 2^16; updates do not count |
| Repaired.RepairedRunIsMap | src/core/hashmap/hashmap.c:43-169 | repair: from an empty table, with no more puts of absent keys in all than slots, and fewer from 2^16 slots on, get comes back for every key with the last put not followed by a delete, and `count` is the number of keys |
| Repaired.PutIsInsert | src/core/hashmap/hashmap.c:43-139 | while nothing is deleted the repaired put and search are the code's |
| LogCodec.DigitsRoundTrip | src/core/storage/aof.c:103 | printing a size in decimal and reading it back are inverse |
| LogCodec.LineExact | src/core/storage/aof.c:153-221 | for a record cut anywhere, or whole, in a buffer with any bytes behind it: whether nothing follows, or a command and which one, or a read behind a null pointer or past the buffer |
| Lines.WordWritten | src/core/storage/aof.c:155-162 | the word of a line is its first, behind any of the six bytes that C takes for space, or the first 15 bytes of it |
| Lines.OtherWordSkipped | src/core/storage/aof.c:158-164 | a line with another word than the two commands is passed over, whatever follows the word |
| Lines.SizeWritten | src/core/storage/aof.c:168-185 | behind blanks, a sign and zeros any number is read as its size, a negative one modulo 2^64 and one from 2^64 on as the largest, and where no digit stands there is no number |
| LogCodec.RecordLineExact | src/core/storage/aof.c:153-221 | the line that fgets cuts out for a record is read as that command, whatever the buffer held before, if and only if it fits |
| LogCodec.LinesJoin | src/core/storage/aof.c:143-228 | the replay of whole lines and something behind them is the replay of the lines and then, with what they leave in the buffer, of the rest, unless the process has died |
| LogCodec.ReplayEncode | src/core/storage/aof.c:143-228 | whatever the buffer held at first, replaying what any sequence of appends wrote gives those operations in order, when every record fits its line, and then goes on with what is behind them |
| LogCodec.FitsExactly | src/core/storage/aof.c:152-153 | a record fits its line if and only if the bytes it needs are at most 4095 and hold a newline at most as the last one; it needs its body, less a last byte NUL or the space before an empty value |
| LogCodec.NewlineInValue | src/core/storage/aof.c:107-108 | a value with a newline before its last byte comes back with a NUL in that byte's place |
| LogCodec.TornExactly | src/core/storage/aof.c:143-228 | what a replay makes of a log whose last record is cut anywhere: the whole records, then what LineExact says of the first line of the torn one and the bytes behind it in the buffer, and then the lines behind a newline in it, or behind its 4095th byte, as lines of their own |
| LogCodec.TornLine | src/core/storage/aof.c:153-221 | and a torn record of one line gives nothing, one operation, or the end of the process |
| LogCodec.CutOutcomes | src/core/storage/aof.c:158-210 | a cut record is passed over with every buffer if and only if it is cut inside SET or DEL or right before a length, and ends the process with every buffer if and only if it is cut inside a length |
| LogCodec.TornInLengthKills | src/core/storage/aof.c:174-188 | a record cut in a length, in its first line, makes every start on that log die, after the records before it |
| LogCodec.TornSetTakesStale | src/core/storage/aof.c:174-193 | after SET b x, a torn SET a, with a as long as b, is carried out as SET a x |
| LogCodec.TornDelete | src/core/storage/aof.c:200-216 | a DEL cut in its key deletes the key that is left of it |
| LogCodec.TornJoinsNext | src/core/storage/aof.c:152-221 | the record appended behind a torn one is read on the same line with it, and of the two at most one operation is carried out |
| LogCodec.TornSwallowsNext | src/core/storage/aof.c:152-193 | the record appended behind a SET torn in its value is taken for the rest of that value and is not carried out |
| Aof.AofFile.constructor | src/core/storage/aof.c:18-37 | opening a log keeps its bytes and starts the sync clock |
| Aof.AofFile.Sync | src/core/storage/aof.c:71-93 | what each policy makes durable, and when |
| Aof.AofFile.Append | src/core/storage/aof.c:107-112 | under ALWAYS nothing is unsynced after an append; under EVERYSEC, with a clock that does not go back, every unsynced record was appended in the second of the last sync |
| Aof.AofFile.AppendSet | src/core/storage/aof.c:96-117 | appends exactly the record of the SET, or nothing and -1 for NULL, and keeps that invariant |
| Aof.AofFile.AppendDel | src/core/storage/aof.c:123-137 | appends exactly the record of the DEL, and keeps that invariant |
| Aof.AofFile.ReplayCommand | src/core/storage/aof.c:190-217 | a command whose call ends does to the table what ReplayStep says, with the look before a delete |
| Aof.AofFile.Replay | src/core/storage/aof.c:143-228 | the loop over the lines of the file, with one buffer that keeps what it held, applies exactly the operations that the text decodes to, in order, to the table, and says whether it died |
| Restore.ReplayStepHolds | src/core/storage/aof.c:164-217 | a replayed command does to a table that holds a map what it does to the map |
| Restore.ReplayHolds | src/core/storage/aof.c:143-228 | a whole replay ends and does to the table what it does to the map, when every SET finds the table fit and every DEL a probe that ends |
| Restore.NullSurvivesDel | src/core/storage/aof.c:212-217 | a key that is stored with NULL, as db_load stores an empty value, is not deleted when its DEL record is replayed, as hm_delete would |
| Restore.SetsExactly | src/core/storage/aof.c:143-228 | a log of SETs is replayed to its end and every key found with its last value, at any capacity, if and only if no segment of the table gets more keys than it has slots |
| Restore.SetsServed | src/core/storage/aof.c:250-265 | and the table answers as the map for every key when moreover no segment of 2^16 slots or more is filled |
| Restore.RewrittenLogRestores | src/core/storage/aof.c:234-296 | from the bytes of a compacted log the replay builds a table, at any capacity, in which every key of the compacted map is found with its value, if and only if no segment gets more keys than it has slots |
| Recovery.ReplayAt | src/core/storage/aof.c:143-228 | replay in closed form: the last record about a key decides, and keys without a record stay |
| Recovery.ReplayIdempotent | src/misc/server.c:121-134 | replaying a log a second time changes nothing |
| Recovery.RecoverExactly | src/misc/server.c:121-134 | replaying a compaction and later records over any snapshot gives the accepted state if and only if the log mentions every key of the snapshot |
| Recovery.StepExactly | src/misc/server.c:45-55 | a step of a handler, the snapshot worker, a crash or a restart keeps the invariant if and only if it is safe: a rewrite needs the keys of the snapshot to be in memory, a crash must leave a log that mentions them |
| Recovery.RunRecovers | src/misc/server.c:115-134 | over every safe run of puts, deletes, saves, rewrites, crashes and restarts, the files would restore exactly the accepted operations, and memory is their map whenever the lock is free |
| Recovery.SafeRunExactly | src/misc/server.c:45-55 | a run is safe if and only if at every moment of it the files on disk would restore the accepted operations |
| Recovery.TrailIs | src/misc/handler/server.handler.c:58-60 | over every run the operations that survive are those that the events ask for, with the key and value of their Begin, in the order of their Append, less what crashes cut off the log |
| Recovery.ServerRecovers | src/misc/server.c:115-134 | the same for every run from the first start; and then memory is the map of the requested operations that survive whenever the lock is free |
| Recovery.DurableRunLosesNothing | src/misc/handler/server.handler.c:58-69 | when every append is flushed and no save fails, every run is safe and no crash loses an accepted operation |
| Recovery.LogOnlyIsSafe | src/misc/server.c:136-138 | with the snapshot worker not started, as in server(), every run is safe, whatever crashes cut off the log between records |
| Recovery.ShippedServerRecovers | src/misc/server.c:115-138 | the server as it stands, from its first start, whatever crashes cut off the log between records: memory, and what a restart would give, is the map of the requested operations whose records survive, all of them when every append is flushed |
| Recovery.DurableServerKeepsAll | src/misc/server.c:45-55 | with the snapshot worker, from the first start, every append flushed, no failed save and crashes between records: memory and files hold all operations ever requested and appended |
| Recovery.CrashCutsExactly | src/misc/server.c:115-138 | whatever the operations and the flushes: a crash can cut the log back exactly to a place behind which nothing was flushed, and the restart then gives the map of the operations kept and of no other |
| Recovery.WorkerExactly | src/misc/server.c:45-55 | from any moment with the lock free each of the worker's two files may be written or not, memory stays, and the files restore it unless the log was rewritten behind a failed save and the old snapshot holds a key that memory has no longer |
| Recovery.CrashBetween | src/misc/server.c:115-138 | a crash in the middle of an operation, or between the two files, can cut the log as at any other moment; with the whole log kept memory is back as it was before the operation |
| Recovery.PartialDurability | src/core/storage/aof.c:71-93 | a crash that loses unflushed records is safe when the snapshot reflects only surviving ones, and recovery gives the state after the survivors |
| Recovery.TornCrash | src/core/storage/aof.c:143-228 | a crash inside a record and the start after it, for every cut and every buffer: the process dies exactly as TornExactly says, or memory is the state after the survivors and the operations read of the torn record; when that is one line, at most one, which is the torn one when what is needed of it was written |
| Recovery.TornLosesNext | src/core/storage/aof.c:101-117 | an operation accepted and flushed after such a start can be missing after the next one: its record became the end of the torn value |
| Recovery.FailedSaveResurrects | src/misc/server.c:47-52 | PUT, save, DELETE, a failed save with its unconditional rewrite, a crash and a restart bring the deleted key back |
| Server.GetParam | src/misc/handler/server.handler.c:11-23 | the value of the first parameter of that name, and None if and only if there is none |
| Server.ReqGetParam | src/misc/handler/server.handler.c:11-23 | the loop computes GetParam |
| Server.HasKeyExactly | src/misc/handler/server.handler.c:32 | the handlers take a key if and only if the first parameter named key has a value of at least one byte |
| Server.PutRequest | src/misc/handler/server.handler.c:25-60 | a request with ?key=K&value=V, as a client writes it, is parsed whole and gives the handler K as its key and V as its value, the operation that InsertHandler then accepts |
| Server.KeyRequest | src/misc/handler/server.handler.c:79-98 | and one with ?key=K gives the handlers of GET and DELETE K as their key |
| Server.Server.constructor | src/misc/server.c:119-134 | starting without a snapshot on a log that a server wrote rebuilds the table of its operations |
| Server.Server.InsertHandler | src/misc/handler/server.handler.c:25-77 | 400 without key or value and nothing changed; otherwise table and log both gain exactly that put, and the log still rebuilds the table slot for slot |
| Server.Server.GetHandler | src/misc/handler/server.handler.c:79-117 | 400, 404 or the value that the accepted operations give |
| Server.Server.DeleteHandler | src/misc/handler/server.handler.c:119-165 | 404 exactly when the probe finds no slot of the key; found or not, table and log both gain the delete and the log still rebuilds the table |
| Server.DeleteIsReplay | src/misc/handler/server.handler.c:146-148 | deleting without looking, as the handler does, and looking first, as the replay does, leave the same table |
| Server.Restart | src/misc/server.c:115-134 | after a crash that keeps the first n records the new server has the table of the first n operations, with all records the old table slot for slot; when the crash keeps what was flushed, the n operations are all but some of those appended in the second of the last sync |
| Server.EverySecKeeps | src/core/storage/aof.c:71-93 | of any prefix of the log that holds the flushed bytes, cut inside a record or not, the replay begins with all operations but some of those appended in the second of the last sync |
| Server.AnswersExactly | src/misc/handler/server.handler.c:98-106 | when every command found the table fit, GET comes back exactly when a round of the slots stops its probe, always for a stored key, and then gives the value last put and not deleted if and only if no tombstone of the key is in reach of its search |
| Server.HandledPutExactly | src/misc/handler/server.handler.c:25-61 | for every accepted request line the record of the handled PUT is read back as that PUT if and only if its needed bytes fit a line and its key has no newline |
| Server.HandledDeleteExactly | src/misc/handler/server.handler.c:119-148 | for every accepted request line the record of the handled DELETE is read back if and only if its needed bytes fit a line |
| Storage.LeRoundTrip | src/core/storage/storage.c:78-82 | writing a number in k bytes and reading it are inverse |
| Storage.FormatRoundTrip | src/core/storage/storage.c:140-218 | a file with six bytes of magic is parsed into exactly the items and the checksum it was written from |
| Format.LoadsExactly | src/core/storage/storage.c:140-218 | any file at all: it is read as these items and this checksum if and only if it is the six bytes of magic, the version, some time, the count, the items and the checksum written out, whatever follows |
| Format.TruncatedNeverLoads | src/core/storage/storage.c:173-213 | such a file, cut short at any place, is refused |
| Format.LeByte | src/core/storage/storage.c:78-98 | the bytes of a number stand lowest first |
| Format.FileLayout | src/core/storage/storage.c:76-111 | for any item: at which place of the file the length of its key, its key, the length of its value and its value stand, and where the header and the checksum do |
| Format.LoadedMap | src/core/storage/storage.c:171-216 | the map that the items of a file make has every key up to its first NUL with the value of the last item about it, NULL for an empty one, and its length modulo 2^16 |
| Format.AnyFileLoads | src/core/storage/storage.c:128-229 | a file that is read, whoever wrote it, with storable keys, comes back as that map if and only if no segment of the new table gets more keys than it has slots |
| Format.ReplayedCEntries | src/core/storage/storage.c:87-107 | what the log rebuilds from operations about storable C strings is a table of the kind that the lemmas about snapshots are about |
| Storage.SavedFileNeverLoads | src/core/storage/storage.c:77 | a file as db_save writes it, with seven bytes of magic, is refused whatever it holds |
| Storage.CorruptionDetected | src/core/storage/storage.c:217-223 | changing one byte of one key or value makes the computed checksum differ from the stored one |
| Storage.ChecksumOfContents | src/core/storage/storage.c:87-107 | tables with the same live entries have the same checksum, whatever their capacities and the order of their slots |
| Storage.ReloadExactly | src/core/storage/storage.c:199-214 | an entry survives a save and a load if and only if its value is NULL, or not empty and shorter than 2^16 bytes |
| Storage.SnapshotRoundTrip | src/core/storage/storage.c:87-107 | inserting all that was saved into a fresh table of any capacity gives a table in which every key is found with its reloaded entry and counted, if and only if no segment gets more keys than it has slots; the entries are the same if and only if each survives reloading |
| Storage.SaveThenLoad | src/core/storage/storage.c:128-229 | with six bytes of magic, the items of a table and any count c in the header: the file is refused when c is more than there are; read up to the c-th item, with the length of the next key for the checksum, when it is less; and in the table of the capacity that db_load asks for every key is found with its reloaded entry if and only if c is the number of keys and no segment gets more of them than it has slots, as is sure for at most 512 keys or a power of two of them |
| Storage.LoadsFirst | src/core/storage/storage.c:161-216 | whatever is in the table, doubled keys too, such a file loads as its first c records, the last one about a key deciding, if and only if no segment gets more of their keys than it has slots |
| Storage.RunSavedExactly | src/core/storage/storage.c:59-229 | of the table after a run, with its own `count` in the header, as long as no key is stored twice: all keys come back if and only if no delete of the run found a tombstone and no segment gets more keys than it has slots |
| Storage.DeletedTwiceLoadsFewer | src/core/storage/storage.c:59-229 | from any table that agrees with a map of two keys or more, after a key is deleted twice the other keys are all stored, and the file brings back all of them but one |
| Storage.LoadsNothing | src/core/storage/storage.c:59-229 | after PUT a, PUT b, DELETE a, DELETE a the table holds b with `count` 0, and the load brings back nothing and takes the length of b for the checksum |
| Storage.SaveReturnsExactly | src/core/storage/storage.c:87-107 | the record loops as written end if and only if the capacity is 0 |
| Storage.SaveRecords | src/core/storage/storage.c:87-107 | moved on once per live slot, the loops write exactly the live items and their checksum |
| Storage.DbSave | src/core/storage/storage.c:76-111 | the file is header, with the `count` of the table, items of the live slots and checksum, in the format that SaveThenLoad is about |
| Storage.DbLoad | src/core/storage/storage.c:165-223 | the load loop, at the capacity of the code, builds exactly the table of the items when its insertions end, and reports a match exactly when the stored checksum is theirs |
| RingBuffer.InitInv | src/core/shard/ringbuffer/ringbuffer.c:5-10 | the empty ring satisfies the invariant |
| RingBuffer.FullExactly | src/core/shard/ringbuffer/ringbuffer.c:21 | the test is exact, as written while rp is below the capacity and masked always; beyond the capacity the written one never says full |
| RingBuffer.WriteSlotExactly | src/core/shard/ringbuffer/ringbuffer.c:21-22 | writing the slot keeps the invariant if and only if the test was masked, or rp was below the capacity, or there was room anyway |
| RingBuffer.StepKeeps | src/core/shard/ringbuffer/ringbuffer.c:12-34 | every single load and store of either thread keeps the invariant |
| RingBuffer.MaskedRunKeeps | src/core/shard/ringbuffer/ringbuffer.c:12-34 | with the masked test, under every interleaving: items read are a prefix of items written, no unread slot is overwritten, none is read unwritten, at most cap - 1 are held |
| RingBuffer.PlainRunKeeps | src/core/shard/ringbuffer/ringbuffer.c:12-34 | the same for the test as written while fewer than cap items have been read |
| RingBuffer.WriteCallEffect | src/core/shard/ringbuffer/ringbuffer.c:12-25 | a whole write with the reader at rest appends its item or changes nothing, by the full test |
| RingBuffer.ReadCallEffect | src/core/shard/ringbuffer/ringbuffer.c:26-34 | a whole read with the writer at rest takes the oldest item, or nothing when all were taken |
| RingBuffer.PlainNeverFull | src/core/shard/ringbuffer/ringbuffer.c:21 | once rp has reached the capacity every write as written succeeds |
| RingBuffer.PlainTestOverwrites | src/core/shard/ringbuffer/ringbuffer.c:21-22 | two such writes into a ring that holds cap - 1 items overwrite the oldest unread one |
| RingBuffer.PlainTestReached | src/core/shard/ringbuffer/ringbuffer.c:12-34 | a run of a ring of two slots that reaches such a state |
| RingBuffer.RBuff.constructor | src/core/shard/ringbuffer/ringbuffer.c:5-10 | rBuff_init gives the empty ring |
| RingBuffer.RBuff.Write | src/core/shard/ringbuffer/ringbuffer.c:12-25 | the call on the array is the four steps of the machine |
| RingBuffer.RBuff.Read | src/core/shard/ringbuffer/ringbuffer.c:26-34 | the call returns the oldest item not yet taken, or NULL when there is none |
| Shard.InitInv | src/core/shard/shard.c:100-116 | the empty shards satisfy the invariant |
| Shard.RouteOneByte | src/core/shard/shard.c:136-139 | keys of one byte go round the shards in turn |
| Shard.ClientKeeps | src/core/shard/shard.c:131-172 | each access of db_insert and db_get to a ring keeps the invariant; a put counts from the access that publishes it |
| Shard.ReadKeeps | src/core/shard/shard.c:74-76 | each access of a worker to its ring keeps it, with the request taken in the worker's hand |
| Shard.ServePutKeeps | src/core/shard/shard.c:78-86 | serving a put keeps it: the Robin Hood table of the shard has room and gains that entry, whether or not the process then dies of the status pointer |
| Shard.ServeGetKeeps | src/core/shard/shard.c:87-89 | serving a get keeps it: nothing but copies of the request lie behind it, so hm_get, when it comes back, answers what the one map holds |
| Shard.StepKeeps | src/core/shard/shard.c:71-180 | so every step of every thread keeps it |
| Shard.StoreIsOneMap | src/core/shard/shard.c:71-180 | from empty shards, under every interleaving of one client and the workers access by access, an answer to db_get is what one map holds after the db_inserts that found room; so it is with a valid status pointer as repair while a ring has served fewer requests than its 1024 slots, for ever with the masked test as well; as written it says no more than AsWrittenDies. That answers come Answers says |
| Shard.RepairedStoreIsOneMap | src/core/shard/shard.c:131-180 | with all three repairs, a valid status pointer, both calls going on until they succeed once, and the masked test, an answer to db_get is what one map holds after all earlier calls of db_insert |
| Shard.InsertOnceExactly | src/core/shard/shard.c:131-151 | db_insert as written is dropped if and only if the ring was full when its write looked, and then the store differs from the map of all calls if and only if the value was not there already |
| Shard.PutDropped | src/core/shard/shard.c:131-151 | of 1024 calls of db_insert while the worker rests the last is dropped without a word: a run from the start |
| Shard.GetSpinsUntilFull | src/core/shard/shard.c:169-172 | the loop of db_get as written, with the worker at rest, ends only once every free place of the ring holds a copy of its request |
| Shard.GetNeverReturns | src/core/shard/shard.c:169-172 | without the repaired test and loop, once the ring of a key has served 1024 requests, a db_get of that key never leaves its first loop, whatever the workers do, until 2^64 requests have gone through |
| Shard.ThirdGetHangs | src/core/shard/shard.c:153-180 | a run of the code as written that gets there: two db_gets of a key while its worker rests fill the ring with copies and return, and the third never does |
| Shard.AsWrittenDies | src/core/shard/shard.c:94-147 | without a valid status pointer, under every interleaving, the process dies exactly as a worker serves a db_insert, and every db_get answered up to there is answered with NULL |
| Shard.FirstPutKills | src/core/shard/shard.c:74-95 | a run that gets there: one db_insert and its worker's turn |
| Shard.DeadForever | src/core/shard/shard.c:94 | after that nothing is ever answered |
| Answers.ServeAnswers | src/core/shard/shard.c:87-95 | a worker with the request of the waiting db_get in its hand answers it in its next step, with what the one map holds, unless a whole round of its table does not stop the probe |
| Answers.WaitAnswered | src/core/shard/shard.c:71-98 | with all repairs, a waiting db_get is answered with what the one map holds in every schedule with so many turns of its worker as its ring and hand ask for |
| Answers.GetReturns | src/core/shard/shard.c:153-180 | after any run of the repaired engine whose keys fit, a client that waits for a key that is in the map, or whose table is not full, has after every schedule with five turns of its worker for each place of the ring the answer that one map holds after all calls of db_insert, and db_get returns |
| Answers.CallsGoIn | src/core/shard/shard.c:131-172 | and while the ring of the key has room a db_insert returns after four accesses with the map updated, and a db_get waits after as many |
| Parse.ContentLengthExactly | src/misc/http/parse.c:70-75 | the length read is an int that differs from the number written by a multiple of 2^32, and so is that number if and only if it fits |
| Parse.LengthHeaderStable | src/misc/http/parse.c:66-77 | more input does not change a header line that is complete, across the 15-byte window and the digit scan |
| Parse.HeadersStable | src/misc/http/parse.c:57-83 | more input does not change headers that are complete |
| Parse.ParseStable | src/misc/http/parse.c:85-111 | a request that parses is the same request with the same length on every extension of the buffer |
| Parse.ReqLineTakesLine | src/misc/http/parse.c:52-54 | the request line is always taken whole |
| Parse.ParamsClean | src/misc/http/parse.c:33-49 | parameter slices have no space and no ampersand, and no newline if and only if the loop stops before the end of the line |
| Parse.LineParamsClean | src/misc/http/parse.c:12-55 | for a request line with a space behind the query every parameter is free of spaces, ampersands and newlines |
| Parse.LineParamsLf | src/misc/http/parse.c:12-55 | in every accepted request line a newline is at most the last byte of a parameter |
| Parse.ReqLine | src/misc/http/parse.c:12-55 | the loops compute the request line that these lemmas are about |
| Parse.Query | src/misc/http/parse.c:33-50 | the parameter loop, at most eight parameters |
| Parse.LengthValue | src/misc/http/parse.c:68-74 | the blanks and digits behind the field name |
| Parse.Headers | src/misc/http/parse.c:57-83 | the header loop computes the length and the end that HeadersStable is about |
| Parse.HttpReq | src/misc/http/parse.c:85-111 | the parser computes the request that ParseStable is about |
| Requests.QueryParams | src/misc/http/parse.c:30-50 | a query of arguments joined with & is read back argument by argument, the first eight of them, with an empty value where there is no = |
| Requests.LineBack | src/misc/http/parse.c:12-55 | a request line is read back: its verb, its path, those parameters, and all its bytes |
| Requests.HeadersBack | src/misc/http/parse.c:57-83 | header lines are read back: the length is the number in the last line that begins with the field name, blanks skipped and anything but a digit behind it ignored, and what it was before when there is no such line; they end behind the empty line |
| Requests.RequestBack | src/misc/http/parse.c:85-111 | every request as a client writes it, with exactly as many bytes of body as its headers announce, parses as that verb, path, parameters, length and body, and takes all its bytes and none of those behind it |
| Requests.RequestWaits | src/misc/http/parse.c:85-111 | and no proper prefix of it parses |
| AnyBytes.LineExactly | src/misc/http/parse.c:12-55 | a first line is a request line if and only if a space and, behind it, a space or a question mark stand on it; verb and path are what stands before each |
| AnyBytes.HeadersEndExactly | src/misc/http/parse.c:57-83 | the headers of any bytes end at the first empty line, and only if there is one; the length is that of the last line that begins with the field name |
| AnyBytes.RequestExactly | src/misc/http/parse.c:85-111 | any bytes at all parse if and only if a first line with two words, headers with an end and as many bytes as they announce stand at the front; the request takes exactly these, and no body when the number is negative |
| Conn.ReceiveTracks | src/misc/http/conn.c:52-74 | a read and its parse lose no byte and dispatch the next request of the stream |
| Conn.ReadableTracks | src/misc/http/conn.c:35-76 | so does a whole handle_readable, whatever read() answers |
| Conn.SessionTracks | src/misc/http/conn.c:35-101 | so does a connection over all its calls |
| Conn.ReadsFill | src/misc/http/conn.c:35-52 | reads that complete no request fill the buffer in order, and then the connection stays or, on an error, closes |
| Conn.ReadsDispatch | src/misc/http/conn.c:35-76 | a request that the reads complete, in any number of pieces, is dispatched by the same handle_readable, with nothing lost of what was read behind it |
| Conn.TooLongCloses | src/misc/http/conn.c:37-41 | a full buffer without a complete request closes the connection |
| Conn.OneByOne | src/misc/http/conn.c:35-76 | requests that arrive one at a time are all dispatched, in order |
| Conn.ChunkingIndependent | src/misc/http/conn.c:35-76 | however the stream is cut, the requests dispatched are the first ones of parsing it in one go, no byte is lost, and what lies behind them is in the buffer or unread; LeavesBehind and StrandedExactly say when that holds a complete request |
| Conn.LeavesBehind | src/misc/http/conn.c:52-74 | a read leaves a complete request undispatched if and only if the buffer and the read together hold two or more |
| Conn.StrandedExactly | src/misc/http/conn.c:35-76 | such a request is dispatched by the next handle_readable if and only if a read brings more bytes; otherwise nothing changes |
| Conn.TwoInOneRead | src/misc/http/conn.c:35-76 | of two requests that arrive in one read the second is never dispatched while the client sends no more |
| Conn.Connection.constructor | src/misc/http/conn.c:10-33 | a new connection has an empty buffer |
| Conn.Connection.Drop | src/misc/http/conn.c:68-71 | the memmove keeps exactly what lies behind the request |
| Conn.Connection.Dispatch | src/misc/http/conn.c:54-74 | the parse after a read, with the carry-over, is Receive |
| Conn.Connection.Readable | src/misc/http/conn.c:35-76 | the read loop on the fixed buffer is HandleReadable |
| Conn.Connection.Writable | src/misc/http/conn.c:78-101 | of a response exactly as many bytes go out, in order, as the socket takes before it first refuses; when all are out reading resumes with an empty buffer, and the connection closes if and only if some are left and the refusal was an error |

## Left out

- Sockets, epoll, accept, thread pinning, the manager and its handshake: what read() and send() answer is a script.
- Pointers, malloc and free: keys and values are byte strings. aof_replay and db_load free keys that the table still points to, and shard.c puts requests of the caller's stack into a ring, where copies of them outlive the call; the model does not show what that leads to.
- Response text, routing, percent-decoding, chunked bodies, xxhash64, arena.c, orca.c, db_save_proc and the utilities.
- Failing fopen, fwrite and malloc in the log and the handlers, whose return values the callers do not use.
- Weak memory order: the steps of the ring are sequentially consistent, with one writer and one reader.
- HashTable.HashMap.Insert: is stated for calls whose loop ends; Runs.PutEndsExactly says when it does at a power of two, and Capacity.PartsPut that it ends at any capacity with room in the segment. In Loops.Call and in runs a call that never ends stands for one that changes nothing.
- HashTable.HashMap.Get: is stated for calls whose loop ends, and so are Probe and Delete; Segments.SegFind says when they do at any capacity.
- Repaired.RepairedRunRefines: does not count a tombstone as room for a new key, although the repaired walk may take one; nor does Repaired.RepairedRunIsMap. Repaired is not the code but a repair of it, written on values, at a power of two of slots.
- LogCodec.LineExact: an access past the 4096 bytes of the buffer, which is undefined in C, is taken to end the process, and so is a read from behind the null pointer of strchr.
- Recovery.RunRecovers: a crash of the state machine cuts the log between records; Recovery.TornCrash has the ones inside a record and the start after them, and LogCodec.TornJoinsNext and Recovery.TornLosesNext what becomes of a record appended behind a torn one, the latter exactly for a SET torn in its value; runs that go on from there are left out. Maps stand for tables, which Restore and Server connect to the slots; SaveOk and RewriteOk stand for a save and a rewrite with one record for each live slot, which the loops as written never finish.
- Recovery.LogOnlyIsSafe: is about crashes between records, as are Recovery.ShippedServerRecovers and Recovery.DurableServerKeepsAll; with torn ones Recovery.TornLosesNext contradicts the last.
- The snapshot worker is modelled although server() has it commented out (src/misc/server.c:136-138); Recovery.ShippedServerRecovers is about the server as it stands.
- Storage.DbSave: the number of bytes of the magic is a parameter, the loops take one step per live slot, and a NULL value with a length above 0, which no caller stores, is written as an empty one.
- Storage.SaveThenLoad: is about tables that store no key twice; Storage.LoadsFirst says what comes back of the others.
- Storage.DbLoad: is stated for files whose insertions end. A short read in the header or of the checksum, which the code does not look for, counts as a failed load, in Format.LoadsExactly and Format.TruncatedNeverLoads too.
- Server.Server.constructor: starts without a snapshot, on a log that a server wrote; with a snapshot that db_save wrote, db_load returns NULL (Storage.SavedFileNeverLoads) and no table is there to work on. The handlers are stated for calls of the table that end.
- Shard.StoreIsOneMap: has one client and one producer for each ring, keys that are storable and no more of them in a shard than its 65536 slots, and one step for a worker's serving a request, of which the client sees nothing before `done`. A request in a ring is a value, where the code passes a pointer to the stack of db_insert, which has returned by the time the worker reads it. Nobody puts an OP_DEL into a ring, so the worker's branch for it is not modelled. Workers and callers are steps on values, not loops on shared objects.
- Parse.ContentLengthExactly: an overflow of int is undefined in C; the model takes it to wrap around.
- Comments of the code and what it does differ in storage.c:39-56 (8-byte lengths, CRC-32) and hashmap.c:143 (the value is freed); the model follows the code.
