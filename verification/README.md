# Verified model of the packet tracer's tables, rings and limits

A Dafny model of the parts of this repository that keep state under pressure:

- the cuckoo hash table of `tools/cuckoohash.c`, over an arbitrary hash function, with
  its recursive displacement search, its key store and its ring of free slot ids;
- the byte ring of `tools/ringbuffer.c`, once as a class used by one caller at a time and
  once as a transition system of one consumer and one or more producers whose steps are
  single loads, stores, compare-and-swaps and byte copies (sequentially consistent);
- the CRC-32C of `tools/hash.c` (slicing by eight), against the bit-serial register of the
  polynomial of section 12.1 of RFC 3720;
- the trace aggregation of `tools/cmd_dump.c`, a client of the table and the ring;
- the transmit rate limiter of `src/transmitter.c`;
- the check of the port/job/lcore mappings and the two indexes filled from them
  (`src/main.c`, `src/port.c`).

Code that updates its state in place is a class or a method on arrays, proved equal to a
function of the old state; the lemmas about those functions carry the main results.
`dafny verify dfyconfig.toml` checks everything.

## Files

| file | what is in it |
|---|---|
| `Bits.dfy` | 32-bit arithmetic, bitwise operators on naturals, `__roundup_2`, `is_power_of_2` |
| `RingBuffer.dfy`, `IdRing.dfy` | the ring as a class; the ring as a queue of 32-bit ids |
| `RingProtocol.dfy` | the ring as a transition system |
| `CuckooSearch.dfy` | the displacement search and the moves, as functions of the slots |
| `CuckooModel.dfy` | the table's invariant and the finite map it stands for |
| `CuckooOps.dfy` | add, lookup, delete on table values, against the map |
| `CuckooRuns.dfy` | whole runs, positions, the walk over all entries |
| `CuckooRefusal.dfy` | when a key is refused, said of the slots |
| `CuckooSamples.dfy` | tables reached by additions, and what they refuse |
| `CuckooHash.dfy` | the class with the buckets, flags, key store and ring as arrays |
| `Crc32c.dfy`, `CrcVectors.dfy`, `KeyHash.dfy` | the CRC; its values on known inputs; the table's hash made from it, and refusals under it |
| `TraceTable.dfy`, `TraceLoss.dfy` | the trace aggregation; a trace slot that is lost |
| `RateLimiter.dfy` | the rate limiter |
| `PortMapping.dfy` | the mappings and indexes |

## Where the code and its documentation part

- `cuckoohash_add_key_data` takes a free slot before it looks for the key
  (`tools/cuckoohash.c:245-248`): the update of a present key is refused exactly on a full
  table (`CuckooRefusal.UpdateRefusedIff`; `KeyHash.UpdateRefused` is such a table).
- A new key can be refused with ids free, its secondary bucket empty and a displacement path
  out of its primary bucket (`KeyHash.RefusedBesideRoom`).  It is refused exactly when all
  ids are in use or its primary bucket is full and the search's walk over buckets never
  comes beside room (`CuckooRefusal.RefusedExactly`); it is refused if there is no path
  (`NoPathRefuses`) and accepted if no bucket is the other bucket of more than three entries
  (`FewPointersAccepts`).  The converse of neither holds (`CuckooSamples.RefusedBesidePath`,
  `CuckooSamples.AcceptedBesidePointers`).
- The size of a table's mapping is kept in 32 bits (`tools/cuckoohash.c:86-88`).  It fits for
  every table up to `HASH_ENTRIES_MAX`, which is declared and never enforced, with keys of up
  to 4073 bytes, and for the largest of them no longer with 4074
  (`CuckooHash.DeclaredMaxFits`, `CuckooHash.LongerKeyDoesNotFit`).
- `ringbuffer_put` is documented to copy at most `len` bytes; it copies all or none, and
  refuses a put that would fill the last byte (`tools/ringbuffer.c:174-178`).
- The ring is documented for one producer.  With several, a producer that is lapped between
  its load of the write position and its compare-and-swap overwrites a byte not yet got
  (`RingProtocol.LapOverwrites`); without a lap all is well (`RingProtocol.StepKeeps`).
- `hash_crc32c` makes no final inversion and counts padding to a multiple of four bytes as
  data: for inputs of n bytes it is the CRC-32C register exactly when n is a multiple of
  four (`Crc32c.IsCrcExactly`).
- The trace pool is filled with 16384 indices and keeps 16383 of them, 0 to 16382: the ring
  drops the last put (`TraceTable.TraceTable.Init`).  Pool and index keep all of them exactly
  as long as the hash table refuses no new key (`TraceTable.AllSlotsHeldIff`); five records
  can lose one (`TraceLoss.SlotLost`).
- `cpu_hz` of `tools/cmd_dump.c:23` is never assigned: a dumped time is the recorded one
  exactly for stamps in seconds that fit in 64 bits and for stamps of no cycles
  (`TraceTable.TimeIff`, `TraceTable.CyclesDumpAsZero`).
- The limiter's due time is 64 bits wide; a burst whose due time does not fit lets the next
  one through early (`RateLimiter.PaidExactly`, `RateLimiter.WrapLosesTheBound`).
- With 64 enabled ports and a forwarding lcore the checked list can fill its array, and the
  first measurement job is written behind it; with fewer than 64 it cannot
  (`PortMapping.RoomIff`, `PortMapping.SixtyFour`).
- Every enabled port is also given to the statistics lcore, whose list holds four ports: with
  up to 61 enabled ports the set-up succeeds exactly if one to four are enabled
  (`PortMapping.FitsByCount`, `PortMapping.SetUp`).

## Model

| member | source | states |
|---|---|---|
| Bits.IsPowerOf2Correct | tools/ringbuffer.c:13-16 | the bit test holds exactly of the powers of two |
| Bits.RoundUp2Correct | tools/ringbuffer.h:101-112 | the result is the least power of two not below the argument for 1 to 2^31, and 0 for 0 and everything above |
| Bits.MaskedDifference | tools/ringbuffer.c:31-32 | subtracting two masked positions in 32 bits and masking again gives their distance around the ring |
| Bits.MaskedSum | tools/ringbuffer.c:179 | adding to a masked position and masking advances it around the ring, by up to a whole turn |
| RingBuffer.SizesAreDistances | tools/ringbuffer.c:23-45 | rest and used size are the distances between the positions, with equal positions meaning empty |
| RingBuffer.WindowCopyIn | tools/ringbuffer.c:184-192 | the two-part copy in puts the new bytes behind the queued ones and disturbs none of those, wherever the wrap falls |
| RingBuffer.WindowGet | tools/ringbuffer.c:227-236 | moving the read position forward leaves the queue without its oldest bytes |
| RingBuffer.RingBuffer.constructor | tools/ringbuffer.c:47-102 | an empty ring, its size rounded up to a power of two at least as large as asked for |
| RingBuffer.RingBuffer.Put | tools/ringbuffer.c:167-201 | all bytes are queued behind the old ones if a byte stays unused, else nothing changes and 0 is returned |
| RingBuffer.RingBuffer.Get | tools/ringbuffer.c:215-242 | the oldest bytes, as many as are queued and asked for, are handed out in order and removed; the rest of the buffer is untouched |
| IdRing.PutId | tools/cuckoohash.c:123 | an id is queued whole or dropped, never in part |
| IdRing.GetId | tools/cuckoohash.c:246-248 | a get yields the oldest id whole or no byte |
| CuckooSearch.SecondaryDiffers | tools/cuckoohash.c:148-157 | the secondary hash of every 32-bit hash differs from it, so no stored entry looks empty |
| CuckooSearch.SecondaryMixes | tools/cuckoohash.c:148-157 | the exclusive or of both hashes is the product, modulo 2^32, of 0x5bd1e995 and the primary hash over 4096 plus one |
| CuckooSearch.BucketIs | tools/cuckoohash.c:236-241 | with a power of two of buckets the masked hash is its remainder by their number |
| CuckooSearch.SearchPathCorrect | tools/cuckoohash.c:172-217 | a path found never meets a slot twice nor one flagged by an outer call, and leads from bucket to other bucket to an empty slot, though buckets may recur |
| CuckooSearch.DisplaceShifts | tools/cuckoohash.c:186-217 | after the moves each slot of the path holds its predecessor's entry with the hashes exchanged, and all other slots are as before |
| CuckooSearch.PushesDeeper | tools/cuckoohash.c:205-218 | the move made on return from the nested call completes the outer path: its slot and target are still what they were on the way down |
| CuckooOps.DisplaceKeeps | tools/cuckoohash.c:159-221 | with the freed slot taken as a hole, the slots hold exactly the ids held before, each once, signed by its key's hashes and in the bucket of its current hash |
| CuckooOps.PlaceKeeps | tools/cuckoohash.c:300-323 | writing the new entry into the hole of its primary bucket adds one entry and keeps all others in place |
| CuckooOps.FindInMap | tools/cuckoohash.c:359-402 | some slot holds a key exactly if the map has it, and that slot gives the position and data of the map |
| CuckooOps.NotFound | tools/cuckoohash.c:383-402 | if neither bucket shows the key under the compared signatures, no slot of the table holds it |
| CuckooOps.Conservation | tools/cuckoohash.c:112-124 | free ids and ids in use are disjoint, each once, and together 1 to entries: the sizes add up and the map is full exactly if no id is free |
| CuckooOps.InsertCorrect | tools/cuckoohash.c:296-329 | a new key is added with the position of its id, or -ENOSPC and neither map nor slots change |
| CuckooOps.AddCorrect | tools/cuckoohash.c:223-330 | invariant kept; full table: refused, also for a present key; present key: data replaced, position kept; new key: added at an unused position, or -ENOSPC and no change |
| CuckooOps.LookupCorrect | tools/cuckoohash.c:346-403 | succeeds exactly if the key is in the map, with its position and data |
| CuckooOps.DeleteCorrect | tools/cuckoohash.c:414-477 | removes exactly the key and returns its position, or -ENOENT and no change; invariant kept |
| CuckooOps.EmptyTable | tools/cuckoohash.c:100-127 | a zeroed table with ids 1 to entries queued satisfies the invariant and is the empty map |
| CuckooOps.RoundUpBuckets | tools/cuckoohash.c:79 | the bucket count times four is a power of two, at least the entries and less than twice as many |
| CuckooRuns.RunRefines | tools/cuckoohash.c:223-484 | every run of operations, for any hash function and any displacements, is a run of a bounded finite map with the results that map allows |
| CuckooRuns.RunKeeps | tools/cuckoohash.c:223-484 | the invariant holds after every step of a run |
| CuckooRuns.PositionsUnique | tools/cuckoohash.h:89-91 | no two present keys have the same position |
| CuckooRuns.PositionKept | tools/cuckoohash.h:89-91 | a key keeps its position through every run that does not delete it, whatever is displaced |
| CuckooRuns.WalkVisits | tools/cuckoohash.c:495-511 | repeated calls visit every slot in use from `next` on, each once, in order |
| CuckooRuns.WalkIsMap | tools/cuckoohash.c:486-525 | iterating from 0 to -ENOENT returns every key of the map exactly once with its position and data, and nothing else |
| CuckooRefusal.RefusedExactly | tools/cuckoohash.c:245-329 | a new key is refused if and only if all ids are in use, or its primary bucket is full and the walk that leaves each bucket by its next entry in turn never comes beside a bucket with room |
| CuckooRefusal.NoPathRefuses | tools/cuckoohash.c:172-220 | refused whenever no displacement path leaves the full primary bucket |
| CuckooRefusal.FewPointersAccepts | tools/cuckoohash.c:193-220 | accepted, while an id is free, whenever no bucket is the other bucket of more than three entries |
| CuckooRefusal.StuckBucket | tools/cuckoohash.c:172-200 | a full bucket whose four entries have both buckets there can never be relieved |
| CuckooRefusal.UpdateRefusedIff | tools/cuckoohash.c:245-248 | the update of a present key is refused exactly on a full table |
| CuckooSamples.RefusedBesidePath | tools/cuckoohash.c:193-220 | a table reached by additions that refuses a key although a path leaves its primary bucket |
| CuckooSamples.AcceptedBesidePointers | tools/cuckoohash.c:300-309 | a table reached by additions that accepts a key although five entries share an other bucket |
| CuckooHash.CuckooHash.constructor | tools/cuckoohash.c:79-127 | a sound empty table of the asked size with between one and two slots an entry |
| CuckooHash.CuckooHash.Create | tools/cuckoohash.c:59-128 | -EINVAL for a zero key length or size; a size below 8 becomes 8; else a sound empty table, for every table whose mapping has a size of 32 bits |
| CuckooHash.DeclaredMaxFits | tools/cuckoohash.c:86-88 | up to the declared maximum of entries that is so for keys of up to 4073 bytes |
| CuckooHash.LongerKeyDoesNotFit | tools/cuckoohash.c:86-88 | and for the maximum no longer with keys of 4074 |
| CuckooHash.CuckooHash.FillFree | tools/cuckoohash.c:119-124 | all ids 1 to entries fit in the ring, in order, despite its unused byte |
| CuckooHash.CuckooHash.MakeSpaceBucket | tools/cuckoohash.c:159-221 | makes the moves of the path and returns its first slot, restores every flag, moves nothing on -ENOSPC, and nests at most once per unflagged slot and once more |
| CuckooHash.CuckooHash.ReturnSlot | tools/cuckoohash.c:262-263 | an id put back is never dropped |
| CuckooHash.CuckooHash.AddKeyWithHash | tools/cuckoohash.c:223-330 | the arrays after the call are those of the specified add, the map as in `CuckooOps.AddCorrect` |
| CuckooHash.CuckooHash.AddKeyData | tools/cuckoohash.c:332-344 | 0 and the key present with its data, or -ENOSPC |
| CuckooHash.CuckooHash.LookupWithHash | tools/cuckoohash.c:346-403 | position and data of the key, or -ENOENT, as the map says |
| CuckooHash.CuckooHash.DelKeyWithHash | tools/cuckoohash.c:414-477 | the table is the old one without the key, its id queued; or -ENOENT |
| CuckooHash.CuckooHash.Iterate | tools/cuckoohash.c:486-525 | the next entry in use from `next` on with its position, and where to go on; -ENOENT at the end |
| KeyHash.HashOf | tools/cuckoohash.c:141-145 | the table's hash is the register, started at 7, over the padded key |
| CrcVectors.Feedback | tools/hash.c:364-379 | the register's feedback is the reversed CRC-32C polynomial 0x1edc6f41, bit by bit |
| CrcVectors.FirstEntry | tools/hash.c:3-4 | entry 1 of the first table is 0xF26B8303, the literal of the code |
| CrcVectors.ZeroVector | tools/hash.c:404-446 | 32 zero bytes give the value of appendix B.4 of RFC 3720, before its final inversion |
| CrcVectors.RisingVector | tools/hash.c:404-446 | and so do the bytes 0 to 31 |
| CrcVectors.ZeroKey | tools/cuckoohash.c:141-145 | the key of four zero bytes has the hash 0x1900b8ca |
| KeyHash.RefusedBesideRoom | tools/cuckoohash.c:300-329 | a table of byte keys hashed by CRC-32C, reached from a new one, that refuses a new key with ids free, an empty secondary bucket and a displacement path |
| KeyHash.UpdateRefused | tools/cuckoohash.c:245-248 | a full table of byte keys that refuses to update one of them and stays as it was |
| RingProtocol.StepKeeps | tools/ringbuffer.c:167-242 | every load, store, compare-and-swap and byte copy of any producer and the consumer keeps the invariant, if no producer is lapped: pending reservations partition what is reserved and unpublished, and published bytes not yet got are intact |
| RingProtocol.CasSafeIff | tools/ringbuffer.c:180-181 | a reserving compare-and-swap that succeeds keeps the invariant exactly if there still is room |
| RingProtocol.NoLapMeans | tools/ringbuffer.c:173-181 | without a lap it succeeds only if nothing was reserved since the load |
| RingProtocol.LapOverwrites | tools/ringbuffer.c:172-192 | a run of two producers after which a lapped one succeeds and copies over a byte not yet got |
| RingProtocol.RunKeeps | tools/ringbuffer.c:164-165 | the invariant holds in every state of every interleaving, for one producer and for several not lapped |
| RingProtocol.DeliveryInOrder | tools/ringbuffer.c:164-165 | in every such interleaving the bytes got are a prefix of the accepted puts in the order of their reservations, at most a ring behind |
| RingProtocol.CopyInIsSafe | tools/ringbuffer.c:184-192 | no unread published byte is overwritten, nor a reserved one but by its owner |
| RingProtocol.CopyOutIsSafe | tools/ringbuffer.c:227-234 | a byte read is published, and is the next one due |
| RingProtocol.ReserveIff | tools/ringbuffer.c:173-181 | a reservation made at once is granted exactly if a byte of the ring stays unused, and a refusal changes nothing |
| RingProtocol.LoadReadAnswers | tools/ringbuffer.c:173-178 | after the separate loads a put gives up exactly if the distance from the read position to the write position it loaded leaves it no spare byte, else it goes on unchanged; the distance is what was queued at that load |
| RingProtocol.LonePutIff | tools/ringbuffer.c:172-181 | a lone producer's put is granted exactly if a byte stays unused when it loads the read position |
| RingProtocol.CasAnswers | tools/ringbuffer.c:180-181 | the compare-and-swap appends the whole message, or has the put begin again |
| RingProtocol.MessageKept | tools/ringbuffer.c:172-200 | a put ends only by that refusal or by publishing, and holds the same message until then |
| RingProtocol.MessageFrom | tools/ringbuffer.c:167-201 | in every run the message held is the one the put was called with |
| RingProtocol.LoadReadPosAnswers | tools/ringbuffer.c:220-225 | with both positions loaded a get reads the lesser of what it asks for and what it has seen published, and rests exactly if that is nothing |
| RingProtocol.StoreReadAnswers | tools/ringbuffer.c:227-241 | a get ends with exactly the oldest of the accepted bytes not yet got, as many as it reads |
| RingProtocol.GetReturns | tools/ringbuffer.c:215-242 | in every run a get that completes returns the oldest bytes, as many as asked for or published at its load of the finish position |
| RingProtocol.GetReturnsNothing | tools/ringbuffer.c:215-225 | in every run a get that returns nothing asked for nothing or had seen nothing published |
| RingProtocol.PublishesOldest | tools/ringbuffer.c:194-197 | the publishing compare-and-swap succeeds exactly for the oldest reservation, though positions recur |
| RingProtocol.OldestPublishes | tools/ringbuffer.c:194-197 | while anything is unpublished its oldest owner exists, can publish once copied, and no one else can |
| RingProtocol.LoneProducerNeverSpins | tools/ringbuffer.c:172-197 | with one producer both compare-and-swaps succeed at once |
| RingProtocol.QuietContents | tools/ringbuffer.c:167-242 | between calls the stored bytes are the accepted ones not yet got: the sequential ring |
| Crc32c.StepsLinear | tools/hash.c:364-402 | shifting the register is linear over exclusive or |
| Crc32c.StepsInjective | tools/hash.c:364-402 | shifting the register loses nothing |
| Crc32c.WordOut | tools/hash.c:364-379 | four table lookups are the whole effect of shifting a word out |
| Crc32c.CrcU32Correct | tools/hash.c:368-380 | the four-byte step is 32 one-bit steps with the word added |
| Crc32c.CrcU64Correct | tools/hash.c:382-402 | the eight-byte step is 64 one-bit steps with the word added |
| Crc32c.SerialIsSteps | tools/hash.c:404-446 | feeding bits one by one is adding the message as a number and shifting it through |
| Crc32c.LastBytes | tools/hash.c:416-443 | the last one to seven bytes enter as one zero-padded word of four or eight bytes |
| Crc32c.HashCrc32c | tools/hash.c:404-446 | for every input and initial value the loop and fall-through switch compute the bit-serial register over the padded input |
| Crc32c.WordChangesShow | tools/hash.c:368-446 | inputs of one length that differ inside one aligned word have different hashes |
| Crc32c.WordReaches | tools/hash.c:368-446 | every 32-bit value is the hash of some choice of an aligned word, whatever stands before and after it |
| Crc32c.IsCrcExactly | tools/hash.c:416-443 | the hash is the unpadded register for all inputs of n bytes if and only if n is a multiple of four |
| TraceTable.Present | tools/cmd_dump.c:90-136 | a key is in the result exactly if an accepted record had it |
| TraceTable.LastRecordWins | tools/cmd_dump.c:90-136 | each cell holds time and thread of the last accepted record for its key and location, or zero |
| TraceTable.MaxLocationIs | tools/cmd_dump.c:254-255 | the number of locations is that of the greatest one seen, in this file or before |
| TraceTable.TraceTable.Init | tools/cmd_dump.c:47-73 | an empty table and a pool of exactly 0 to 16382 |
| TraceTable.TraceTable.AddRecord | tools/cmd_dump.c:90-136 | a record is accepted exactly if its key is present or the pool and the table have a place; the table, the pool and the return value are the specified ones; two keys never share a slot |
| TraceTable.TraceTable.ReadRecords | tools/cmd_dump.c:238-266 | accepted records, hash table and pool are exactly those of the specified fold; the number of locations counts refused records too |
| TraceTable.IndexSmall | tools/cmd_dump.c:59-71 | index and pool share 16383 slots, fewer than the hash table has ids |
| TraceTable.SlotsConserved | tools/cmd_dump.c:105-127 | pool and index lose one slot for each new key the hash table refuses, and no other |
| TraceTable.AllSlotsHeldIff | tools/cmd_dump.c:105-127 | they hold all slots if and only if no new key was refused for want of a place |
| TraceTable.TraceTable.SlotsHeld | tools/cmd_dump.c:59-71 | the counts apply to the table and pool at hand, between any two calls |
| TraceLoss.SlotLost | tools/cmd_dump.c:105-127 | five records that lose a slot, with keys hashed by CRC-32C and a new table |
| TraceTable.TimeIff | tools/cmd_dump.c:138-149 | the dumped time is the recorded one if and only if the stamp is in seconds and fits, or has no cycles |
| TraceTable.CyclesDumpAsZero | tools/cmd_dump.c:138-149 | a stamp of one second in cycles is dumped as 0 |
| TraceTable.ItemsAreIndex | tools/cmd_dump.c:171-187 | the walk of the dump meets every key once with its trace slot |
| TraceTable.TraceTable.DumpAllTraces | tools/cmd_dump.c:152-189 | one row for every key of an accepted record, in the order of the walk; each column has thread and time of the last accepted record for its key and location, seconds and nanoseconds being one number of 64 bits, or zeros |
| RateLimiter.CyclesPerByte | src/transmitter.c:17-21 | at the configured rate that many cycles pass for each byte of eight bits |
| RateLimiter.WireSizeAdds | src/transmitter.c:257-268 | a burst counts with the lengths of its packets and 24 bytes for each |
| RateLimiter.NextDueIs | src/transmitter.c:274-276 | the due time is now and the size times the cycles for a byte, rounded down, modulo 2^64 |
| RateLimiter.PaidFor | src/transmitter.c:240-288 | all that was sent but the last burst is paid for by the time from the first call to that burst |
| RateLimiter.RateBound | src/transmitter.c:240-288 | in any run the bytes sent are at most one burst and the time passed over the cycles per byte |
| RateLimiter.WindowBound | src/transmitter.c:240-288 | the same for every window of consecutive calls of a run |
| RateLimiter.HeldBackOnlyForRate | src/transmitter.c:249-250 | a burst in the pool is held back only while the last one is unpaid; the first one only until the due time at the start |
| RateLimiter.PaidExactly | src/transmitter.c:274-276 | the limiter keeps every later burst back until this one is paid for if and only if its due time fits in 64 bits |
| RateLimiter.WrapLosesTheBound | src/transmitter.c:274-276 | two bursts of 60-byte packets in one cycle after a due time that wraps |
| RateLimiter.TxCtl.SendBurst | src/transmitter.c:219-235 | however the device takes them, all packets are handed over once and in order |
| RateLimiter.TxCtl.TxBurst | src/transmitter.c:239-288 | sends the whole burst and sets the due time, or changes nothing: too early gives 0, an empty pool -1 |
| PortMapping.KeptAre | src/main.c:229-301 | the kept mappings are the first valid ones of their queues, all of them, in their order |
| PortMapping.HasClaimed | src/main.c:269-290 | looking for a duplicate among the kept mappings is looking among all valid ones before |
| PortMapping.KeptBound | src/main.c:229-301 | at most two mappings are kept for each enabled port |
| PortMapping.Compact | src/main.c:240-301 | the array's front is the kept mappings, the rest of it untouched |
| PortMapping.CheckMapping | src/main.c:229-330 | the array's front is the kept mappings and then a transmit job of the statistics lcore for each enabled port, cut at 128; the rest untouched |
| PortMapping.KeptOnePerQueue | src/main.c:229-301 | every kept mapping is a valid one of the configured list, and no queue is kept twice |
| PortMapping.NothingCut | src/main.c:306-318 | with up to 42 ports no measurement job is cut off |
| PortMapping.NeverEmpty | src/main.c:489-493 | with a port enabled and room for its entry the checked list is never empty: the error branch for that cannot be taken |
| PortMapping.RoomIff | src/main.c:306-318 | the first measurement job has a place for every configuration if and only if fewer than 64 ports are enabled or no lcore forwards |
| PortMapping.SixtyFour | src/main.c:306-318 | 64 enabled ports and 128 mappings that leave it none |
| PortMapping.IndexesAreInverse | src/main.c:96-123 | for forwarding lcores, a port is in a job list of an lcore exactly if its own table names that lcore |
| PortMapping.DecidedEntry | src/main.c:118-120 | the table entry of an enabled port's queue is the lcore of the first configured mapping that applies to it |
| PortMapping.UndecidedEntry | src/port.c:90-91 | without one it stays at 128, no lcore |
| PortMapping.StatLists | src/main.c:306-318 | the statistics lcore transmits on the enabled ports, as far as there are places, and receives on none |
| PortMapping.LastDecides | src/main.c:118-120 | among the mappings entered the last one of a queue to a forwarding lcore decides its entry |
| PortMapping.NoneDecides | src/main.c:118-120 | without one the entry is what it was |
| PortMapping.AssignedConcat | src/main.c:115-116 | the ports of a job list are in the order of the mappings |
| PortMapping.AssignedOnce | src/main.c:96-123 | no forwarding lcore has a queue twice |
| PortMapping.AssignedBound | src/main.c:102-116 | no lcore has more kept mappings for a job than there are enabled ports |
| PortMapping.FitsIff | src/main.c:109-114 | the lists are long enough if and only if at most four ports are enabled, or at least 124 kept mappings crowd out the measurement jobs and fit themselves |
| PortMapping.FitsByCount | src/main.c:109-114 | with up to 61 enabled ports, if and only if at most four are |
| PortMapping.Ports.ParseOpt | src/port.c:63-104 | exactly the ports of the mask are enabled, with no lcore yet, and counted |
| PortMapping.Ports.UpdateLcore | src/port.c:51-54 | changes the one table entry |
| PortMapping.Sender.InitLcorePort | src/main.c:96-123 | both tables are those of the mappings entered, and an entry none of them is for is what it was; -2 at the first that finds its list full, 0 exactly if every list is long enough |
| PortMapping.SetUp | src/main.c:478-504 | from mask and configuration to the tables: with up to 61 ports enabled it succeeds exactly if one to four are; then both indexes agree for every enabled port, and each entry is the lcore of the first mapping that applies, 128 for none, 0 for a port not enabled |

## Left out

- Memory mapping, files and failing allocations of `ringbuffer_create`, `ringbuffer_open`, `cuckoohash_create` and the destroy functions; NULL arguments, which the entry points answer with -EINVAL.
- Prefetches and weak memory: the ring's steps are sequentially consistent.
- RingProtocol.StepKeeps: with several producers, one that is lapped is excluded, since the property then fails (`RingProtocol.LapOverwrites`), and so are empty messages.
- The layout of the key store: it is two arrays of keys and data indexed by id; the buckets are one array of records, slot i of bucket b at 4*b+i.
- CuckooHash.CuckooHash.Create: requires a mapping whose size fits in the 32 bits the code keeps it in, with the structure sizes of a 64-bit machine.
- The loops inside one C function are methods of their own in places (`FindRoom`, `FindStored`, `FillBurst` and others), called in the order of the code.
- The literals of the eight tables of `tools/hash.c`; the tables are defined by their recurrence, and entry 1 of the first is compared (`CrcVectors.FirstEntry`).
- The byte order of the id ring and of the words hashed is little-endian; other orders are not part of this model.
- TraceTable.TraceTable.AddRecord: requires a location below 16, which the code does not check; the key is the pair of port and probe, the padding bytes of its struct are not modelled (`TraceLoss.SlotLost` takes them as zero).
- TraceTable.TraceTable.ReadRecords: requires locations below 16 for the same reason.
- Reading and writing files in `tools/cmd_dump.c`: a file is its sequence of records, and a dump the sequence of its rows without titles and number formatting.
- RateLimiter.RateBound: the `double` rate is a real number, and every due time must fit in 64 bits (`RateLimiter.PaidExactly` shows that this is needed); the clock is a parameter that never goes back.
- RateLimiter.PaidFor: as `RateLimiter.RateBound`.
- RateLimiter.WindowBound: as `RateLimiter.RateBound`.
- RateLimiter.TxCtl.SendBurst: requires a device that takes all packets at last, without which the loop does not end.
- PortMapping.CheckMapping: requires fewer than 128 kept mappings; `PortMapping.RoomIff` says exactly when that always holds, and the write behind the array has no model.
- PortMapping.SetUp: requires at most 64 ports, beyond which the shift of the mask is undefined in C, and the condition of `PortMapping.RoomIff`; leaves out the branch for an empty checked list, which `PortMapping.NeverEmpty` shows is never taken, and the set-up of the devices after it.
- PortMapping.Ports.ParseOpt: requires at most 64 ports for the same reason.
- DPDK calls, buffer ownership, timers, port set-up and tear-down, statistics, probes, and the shutdown on signals in `src/pktsender.c`.
- Parsing of options, rates and configurations, logging and usage texts, `tools/command.c`, `tools/pt_analyzer.c`.
- The packet checksums of `src/pkt_seq.c` and the buffering of `pkttracer/pt_trace.c`.
