# HA-NAT worker core, modelled and verified in Dafny

This project models the translation core of the HA-NAT worker plugin: the
session cache, the session-key extraction, the 64-bit longest-prefix-match
table of mapper pools, the incremental checksum deltas, and the worker's
control operations (interface registry, cache add and update, mapper
registration and load-balancing buckets). It proves properties of that model.

The sources are `src/plugins/hanat/worker/hanat_worker_db.c` and
`src/plugins/hanat/worker/hanat_worker.c`. The model has six modules:

- `Machine` (machine.dfy) holds the machine words as bounded integers, and the
  conversions the code relies on. `ntohl` is a byte swap on the little-endian
  host. `Int32` is the truncation of an `ip_csum_t` to the C `int` a function
  returns. `SignExtend` widens that `int` back to `ip_csum_t`.
- `Pools` (pool.dfy) is the vppinfra pool. It is an arena of optional slots
  with a last-in first-out free list.
- `Checksum` (checksum.dfy) holds `l3_checksum_delta` and `l4_checksum_delta`.
  They are built on `ip_csum_add_even`/`ip_csum_sub_even`. The vppinfra header
  that defines those is not part of this model; they are taken to be 64-bit
  end-around carry and borrow. The module also holds the ones'-complement sum of
  RFC 1071, section 1, as the reference. Against that reference it proves the
  incremental update of RFC 1624, section 3.
- `Sessions` (sessions.dfy) holds key extraction and the session table. The
  table is a `SessionTable` class: a pool of sessions plus the bihash index,
  modelled as a map from key to slot. Its methods are find, add (with stale
  reuse), add-incomplete and delete.
- `Lpm` (lpm.dfy) holds the masked 64-bit keys and the prefix table. The table
  is a `PoolDb` class with the bihash, the per-length reference counts (read as an
  array of 65), the length bitmap (a set of bit positions), the mapper pool
  entries and the per-domain bucket vectors.
- `Worker` (worker.dfy) is `hanat_worker_main` as the `WorkerMain` class, with
  the control operations of hanat_worker.c.

Times are integers. A full bihash bucket is a parameter: the keys its entries
hold, in the order the stale callback is offered them. The first stale one is
evicted. `vnet_feature_enable_disable`'s result is a parameter of
`InterfaceAddDel`.

Two behaviours of the code that a reader might not expect:

- `hanat_worker_cache_add` seeds the L4 delta with the L3 delta for every
  protocol, ICMP included. Only `hanat_worker_cache_update` uses the zero seed
  for ICMP. `AddAndUpdateDifferOnIcmp` and `IcmpAddAndUpdateExample` show the
  consequence.
- The prefix table's key does not record the prefix length. So two prefixes of
  one domain can share a bihash entry (`KeysCollideAcrossLengths`). A length's
  reference count is therefore the number of adds minus deletes at that
  length, not the number of entries stored at it. The invariant proved is the
  one the code keeps: a length's bit is set exactly when its count is positive.

## Model

| member | source | states |
|---|---|---|
| Machine.Ntohl | src/plugins/hanat/worker/hanat_worker.c:207 | `ntohl` on the little-endian host reverses the four bytes of the word |
| Machine.NtohlInvolution | src/plugins/hanat/worker/hanat_worker.c:207 | converting twice gives the word back |
| Machine.Int32 | src/plugins/hanat/worker/hanat_worker.c:101 | returning an `ip_csum_t` as `int` keeps it modulo 2^32, as a signed 32-bit value |
| Machine.SignExtend | src/plugins/hanat/worker/hanat_worker.c:124 | assigning the `int` to an `ip_csum_t` keeps it modulo 2^64, with the high half all zeros or all ones |
| Machine.Int32SignExtend | src/plugins/hanat/worker/hanat_worker.c:124-125 | widening an `int` and truncating it again gives the `int` back |
| Pools.Pool.IsFree | src/plugins/hanat/worker/hanat_worker_db.c:79 | defines `pool_is_free_index`: the slot is past the end or holds no element; `Get`, `Put` and `Set` state how it changes |
| Pools.Pool.Get | src/plugins/hanat/worker/hanat_worker_db.c:123 | `pool_get` returns a slot that was free, now holds the value, and no other slot changes |
| Pools.Pool.Put | src/plugins/hanat/worker/hanat_worker_db.c:104 | `pool_put_index` frees exactly that slot and keeps the pool valid |
| Pools.Pool.Set | src/plugins/hanat/worker/hanat_worker_db.c:156 | a write through the slot pointer changes only that slot |
| Pools.EmptyPool | src/plugins/hanat/worker/hanat_worker.c:34 | a zeroed pool has every slot free |
| Pools.PutThenGetReusesSlot | src/plugins/hanat/worker/hanat_worker_db.c:104 | the slot just freed is the next one handed out |
| Checksum.AddEven | src/plugins/hanat/worker/hanat_worker.c:94 | adding with end-around carry equals the sum, or the sum minus 2^64 - 1 |
| Checksum.SubEven | src/plugins/hanat/worker/hanat_worker.c:95 | subtracting with end-around borrow equals the difference, or the difference plus 2^64 - 1 |
| Checksum.L3Sum | src/plugins/hanat/worker/hanat_worker.c:87-100 | the accumulator is the sum of post minus pre over the enabled address fields, modulo 2^64 - 1; an unchanged field adds nothing |
| Checksum.L3Delta | src/plugins/hanat/worker/hanat_worker.c:87-102 | with no address instruction the delta is 0 |
| Checksum.L4Sum | src/plugins/hanat/worker/hanat_worker.c:104-116 | the accumulator is the seed plus post minus pre over the enabled ports, modulo 2^64 - 1; with no port instruction it is the seed |
| Checksum.L4Delta | src/plugins/hanat/worker/hanat_worker.c:104-117 | with no port instruction the returned delta is the seed as an `int`; its value modulo 0xFFFF for the seeds the worker passes is stated by `L4DeltaSignExtendedSeed` |
| Checksum.OnesAdd16 | src/plugins/hanat/worker/hanat_worker.c:94 | 16-bit end-around-carry addition is the sum, or the sum minus 0xFFFF |
| Checksum.OnesSum16IsWordSum | src/plugins/hanat/worker/hanat_worker.c:87-117 | the RFC 1071 ones'-complement sum equals the integer sum of the words modulo 0xFFFF |
| Checksum.WordSumUpdate | src/plugins/hanat/worker/hanat_worker.c:92-101 | overwriting a word changes the sum by the new word minus the old one |
| Checksum.Put32 | src/plugins/hanat/worker/hanat_worker.c:93-100 | writing a 32-bit field stores the value at those two words |
| Checksum.Put32Sum | src/plugins/hanat/worker/hanat_worker.c:93-100 | rewriting an address field changes the header sum by new minus old, modulo 0xFFFF |
| Checksum.RewriteAddressesWordSum | src/plugins/hanat/worker/hanat_worker.c:93-100 | the enabled address rewrites change the header sum by exactly the address delta, modulo 0xFFFF |
| Checksum.Ones64To16 | src/plugins/hanat/worker/hanat_worker.c:92-101 | equality modulo 2^64 - 1 implies equality modulo 0xFFFF |
| Checksum.L3SumRepairsHeader | src/plugins/hanat/worker/hanat_worker.c:87-101 | the header's checksum sum plus the L3 accumulator is the translated header's checksum sum (RFC 1624, section 3) |
| Checksum.TruncationKeepsOnes16 | src/plugins/hanat/worker/hanat_worker.c:101 | truncating to `int` keeps the 16-bit value when the high half is all zeros or all ones |
| Checksum.L3SumOneAddressRange | src/plugins/hanat/worker/hanat_worker.c:92-100 | with at most one address rewritten, the accumulator's high half is all zeros or all ones |
| Checksum.L3DeltaOneAddress | src/plugins/hanat/worker/hanat_worker.c:87-102 | with at most one address rewritten, the returned `int` is still the exact address delta modulo 0xFFFF |
| Checksum.L3DeltaRepairsHeader | src/plugins/hanat/worker/hanat_worker.c:124-126 | with at most one address rewritten, the stored L3 delta repairs the header checksum |
| Checksum.L3DeltaLosesCarry | src/plugins/hanat/worker/hanat_worker.c:101 | with both addresses rewritten, the truncation can drop a carry: an address delta of 1 (mod 0xFFFF) is returned as 0 |
| Checksum.L4SumSeed | src/plugins/hanat/worker/hanat_worker.c:150-153 | a seeded L4 accumulator is the seed plus the zero-seeded accumulator, modulo 2^64 - 1 |
| Checksum.TranslatePortsWordSum | src/plugins/hanat/worker/hanat_worker.c:108-115 | the port rewrites change the transport header sum by exactly the port delta |
| Checksum.WordSumConcat | src/plugins/hanat/worker/hanat_worker.c:124-125 | the sum over pseudo-header and segment is the sum of the two sums |
| Checksum.L4SumRepairsSegment | src/plugins/hanat/worker/hanat_worker.c:124-125 | the L4 accumulator seeded with the L3 one repairs the TCP/UDP checksum over pseudo-header and segment |
| Checksum.SegmentRepairedBy | src/plugins/hanat/worker/hanat_worker.c:124-125 | any delta equal modulo 0xFFFF to the address delta plus the port delta repairs the TCP/UDP checksum over pseudo-header and segment |
| Checksum.L4SumNearZero | src/plugins/hanat/worker/hanat_worker.c:106-116 | the port rewrites move the L4 accumulator at most 4 * 2^16 further from a ones'-complement zero |
| Checksum.L4DeltaSignExtendedSeed | src/plugins/hanat/worker/hanat_worker.c:104-117 | seeded with an `int` widened to `ip_csum_t`, the returned `int`, widened again, is the seed plus the port delta modulo 0xFFFF: the truncation drops no carry |
| Checksum.L4DeltaRepairsSegment | src/plugins/hanat/worker/hanat_worker.c:124-125 | with at most one address rewritten, the L4 delta as the worker computes it (seeded with the widened L3 delta, both truncated to `int`) repairs the TCP/UDP checksum |
| Sessions.KeyFromIp | src/plugins/hanat/worker/hanat_worker_db.c:42-66 | addresses, protocol and domain copied; TCP/UDP ports from the header; ICMP echo ports both the identifier; otherwise ports 0 |
| Sessions.ReplyKeyIsReversed | src/plugins/hanat/worker/hanat_worker_db.c:42-66 | the key of a reply is the request's key with addresses and ports swapped |
| Sessions.IsStale | src/plugins/hanat/worker/hanat_worker_db.c:100 | defines the stale test: the session was last heard at least 10 time units before `now`; `FirstStaleIs` and `StaleCallback` state how it is used |
| Sessions.FirstStale | src/plugins/hanat/worker/hanat_worker_db.c:92-109 | the evicted entry is a stale one with no stale entry before it; none is evicted when none is stale |
| Sessions.FirstStaleIs | src/plugins/hanat/worker/hanat_worker_db.c:100 | the first entry meeting `now >= last_heard + 10` is the one chosen |
| Sessions.FirstStaleIsNone | src/plugins/hanat/worker/hanat_worker_db.c:100-108 | when no entry is stale, nothing is evicted |
| Sessions.Insert | src/plugins/hanat/worker/hanat_worker_db.c:122-139 | defines the table after an insertion: the victim's slot freed and unindexed, the session in the slot `pool_get` hands out, indexed under its key; `InsertSpec` states its properties |
| Sessions.InsertSpec | src/plugins/hanat/worker/hanat_worker_db.c:122-139 | insertion keeps index and pool consistent, puts the session in a slot that was free, indexes it under its key, removes only the victim and keeps every other session |
| Sessions.Remove | src/plugins/hanat/worker/hanat_worker_db.c:190-198 | defines the table after a removal: the key's slot freed and the key unindexed; `RemoveSpec` states its properties |
| Sessions.RemoveSpec | src/plugins/hanat/worker/hanat_worker_db.c:190-198 | removal keeps the table consistent, frees exactly the key's slot and keeps every other session |
| Sessions.SessionTable.constructor | src/plugins/hanat/worker/hanat_worker_db.c:30-34 | `hanat_db_init` gives an empty, consistent table |
| Sessions.SessionTable.Find | src/plugins/hanat/worker/hanat_worker_db.c:68-82 | a slot is found only when the key is indexed and its slot is live; an unindexed key or a free slot gives nothing |
| Sessions.SessionTable.FindIsIndexLookup | src/plugins/hanat/worker/hanat_worker_db.c:79-81 | in a consistent table the free-slot check never fires, and the slot found holds the key |
| Sessions.SessionTable.FindIp | src/plugins/hanat/worker/hanat_worker_db.c:84-90 | a packet's session is found exactly when the key extracted from it is indexed, and the session found holds that key |
| Sessions.SessionTable.StaleCallback | src/plugins/hanat/worker/hanat_worker_db.c:92-109 | accepts exactly a stale session and then frees its slot; otherwise nothing changes |
| Sessions.SessionTable.InsertWithStaleReuse | src/plugins/hanat/worker/hanat_worker_db.c:122-139 | offering the bucket's entries in order evicts the first stale one, and the result is the specified insertion |
| Sessions.SessionTable.Add | src/plugins/hanat/worker/hanat_worker_db.c:112-140 | an existing key fails with nothing changed; otherwise the session is inserted and a later find returns its slot |
| Sessions.SessionTable.AddIncomplete | src/plugins/hanat/worker/hanat_worker_db.c:142-175 | an existing session keeps everything but its buffer; otherwise a zeroed session with the key, buffer and tunnel flag is inserted |
| Sessions.SessionTable.Delete | src/plugins/hanat/worker/hanat_worker_db.c:177-199 | an unindexed key changes nothing; otherwise the slot is freed and the key unindexed, so find then fails |
| Sessions.SessionTable.SetEntry | src/plugins/hanat/worker/hanat_worker.c:140-154 | a write to a live session's entry keeps its key, its slot and the table consistent |
| Sessions.OneSessionPerKey | src/plugins/hanat/worker/hanat_worker_db.c:118-120 | in a consistent table a key has at most one live session |
| Lpm.MaskKeepsOnlyPrefixBits | src/plugins/hanat/worker/hanat_worker_db.c:214-218 | the masked address has only bits of the address and none of the low 64 - len |
| Lpm.MaskKeepsPrefixBits | src/plugins/hanat/worker/hanat_worker_db.c:214-218 | below length 64, the masked address together with the low 64 - len bits of the address gives the address back: the top len bits are kept unchanged |
| Lpm.MaskedAddress64 | src/plugins/hanat/worker/hanat_worker_db.c:214-218 | defines `masked_address64`: the address itself at length 64, otherwise the address with its low 64 - len bits cleared; `MaskKeepsOnlyPrefixBits`, `MaskKeepsPrefixBits`, `MaskExtremes`, `MaskIdempotent` and `MaskNested` state its properties |
| Lpm.MaskExtremes | src/plugins/hanat/worker/hanat_worker_db.c:217 | length 64 is the identity and length 0 gives 0 |
| Lpm.MaskIdempotent | src/plugins/hanat/worker/hanat_worker_db.c:214-218 | masking twice equals masking once |
| Lpm.MaskNested | src/plugins/hanat/worker/hanat_worker_db.c:214-218 | masking at a shorter length after a longer one is masking at the shorter one |
| Lpm.LpmKey | src/plugins/hanat/worker/hanat_worker_db.c:220-224 | defines `lpm_key`: the domain shifted into the high 32 bits, or-ed with the address; `LpmKeyHalves` and `DomainsNeverShareKeys` state its properties |
| Lpm.LpmKeyHalves | src/plugins/hanat/worker/hanat_worker_db.c:220-224 | the domain is the high 32 bits and the address the low 32 |
| Lpm.DomainsNeverShareKeys | src/plugins/hanat/worker/hanat_worker_db.c:257-261 | at the lengths the table uses (32 to 64) keys of different domains never coincide |
| Lpm.KeysCollideAcrossLengths | src/plugins/hanat/worker/hanat_worker_db.c:257-261 | 10.0.0.0/16 and 10.5.0.0/8 of one domain get the same key |
| Lpm.LpmTable.FirstHit | src/plugins/hanat/worker/hanat_worker_db.c:245-250 | the first set bit from `i` whose probe hits, with no hit before it; none if no bit hits |
| Lpm.LpmTable.LookupResult | src/plugins/hanat/worker/hanat_worker_db.c:239-252 | defines the lookup's answer on the table's state: the value under the first set bit whose masked key hits, ~0 when none does; `PoolDb.Lookup` is proved to return it, and `LookupAfterAdd`, `LookupAfterAddToMiss` and `MapperDeleteMissIsFatal` state its properties |
| Lpm.LpmTable.Added | src/plugins/hanat/worker/hanat_worker_db.c:254-269 | add stores the entry, counts one more at that length, touches no other length and keeps bit-set-iff-count-positive |
| Lpm.LpmTable.Deleted | src/plugins/hanat/worker/hanat_worker_db.c:271-289 | delete removes the entry, counts one less, touches no other length and clears the bit only at zero |
| Lpm.AddThenDeleteRestores | src/plugins/hanat/worker/hanat_worker_db.c:254-289 | deleting a freshly added prefix restores entries, counts and bitmap |
| Lpm.LookupAfterAdd | src/plugins/hanat/worker/hanat_worker_db.c:239-269 | after an add, every covered address matches at that length or a longer one, and gets the value when nothing longer matches |
| Lpm.LookupAfterAddToMiss | src/plugins/hanat/worker/hanat_worker_db.c:239-269 | when nothing matched before, the added prefix's value is what the lookup returns |
| Lpm.PoolDb.constructor | src/plugins/hanat/worker/hanat_worker_db.c:292-297 | an empty table: no entries, zero counts, empty bitmap |
| Lpm.PoolDb.LookupCore | src/plugins/hanat/worker/hanat_worker_db.c:226-237 | succeeds exactly when the masked key has an entry, returning its value |
| Lpm.PoolDb.Lookup | src/plugins/hanat/worker/hanat_worker_db.c:239-252 | returns the value of the longest matching prefix (the first hitting bit), ~0 when none matches |
| Lpm.PoolDb.LpmAdd | src/plugins/hanat/worker/hanat_worker_db.c:254-269 | the new state is the specified add at length pfxlen + 32; the invariant holds after |
| Lpm.PoolDb.LpmDelete | src/plugins/hanat/worker/hanat_worker_db.c:271-289 | needs the entry present and a positive count; the new state is the specified delete |
| Worker.Validate | src/plugins/hanat/worker/hanat_worker.c:72 | `vec_validate` makes the index exist, keeps the old cells and fills the new ones |
| Worker.RegisteredIffIndexed | src/plugins/hanat/worker/hanat_worker.c:56-78 | an interface is configured exactly when its reverse entry names a live slot holding it, and at most one slot holds it |
| Worker.WithAddDeltas | src/plugins/hanat/worker/hanat_worker.c:124-126 | defines the entry `hanat_worker_cache_add` stores: the widened L3 delta and the L4 delta seeded with it; `AddDeltasKeepOtherFields`, `StoredDeltaRepairsHeader` and `StoredL4DeltaRepairsSegment` state its properties, and `CacheAdd` stores it |
| Worker.Updated | src/plugins/hanat/worker/hanat_worker.c:142-154 | defines the entry `hanat_worker_cache_update` leaves: the new translation, its L3 delta, and the L4 delta seeded with the L3 delta or with 0 for ICMP; `UpdateMatchesAddOffIcmp`, `AddAndUpdateDifferOnIcmp` and the two repair lemmas state its properties |
| Worker.AddDeltasKeepOtherFields | src/plugins/hanat/worker/hanat_worker.c:124-126 | cache add writes only the two delta fields of the entry |
| Worker.UpdateMatchesAddOffIcmp | src/plugins/hanat/worker/hanat_worker.c:149-154 | for TCP/UDP, a refresh with the same translation recomputes the deltas the add stored |
| Worker.AddAndUpdateDifferOnIcmp | src/plugins/hanat/worker/hanat_worker.c:150-153 | for ICMP without port rewrites, a refresh stores an L4 delta of 0 while the add stored the L3 delta |
| Worker.IcmpAddAndUpdateExample | src/plugins/hanat/worker/hanat_worker.c:124-125 | an ICMP session with source 0 rewritten to 1 gets L4 delta 1 on add and 0 on refresh |
| Worker.StoredDeltaRepairsHeader | src/plugins/hanat/worker/hanat_worker.c:124-154 | with one address rewritten, the L3 delta stored by add or refresh repairs the header checksum |
| Worker.StoredL4DeltaRepairsSegment | src/plugins/hanat/worker/hanat_worker.c:124-154 | with one address rewritten, the L4 delta stored by add, or by a TCP/UDP refresh, repairs the transport checksum over pseudo-header and segment |
| Worker.MapperDeleteMissIsFatal | src/plugins/hanat/worker/hanat_worker.c:164-184 | a delete that passes the existence check finds no entry or a zero count, which the LPM delete treats as fatal |
| Worker.BucketVector | src/plugins/hanat/worker/hanat_worker.c:204-210 | defines the vector installed for a domain: the n indices in host order and one extra 0; `BucketVectorRoundTrip` states its properties and `FillBuckets` builds it |
| Worker.BucketVectorRoundTrip | src/plugins/hanat/worker/hanat_worker.c:204-210 | the bucket vector has n + 1 cells, ends in 0, and converting back gives the caller's indices |
| Worker.BucketsGuardAdmitsEnd | src/plugins/hanat/worker/hanat_worker.c:199-200 | for every non-empty vector, the domain index equal to its length passes the written guard but not the intended one: an index past the end |
| Worker.BucketsGuardInBounds | src/plugins/hanat/worker/hanat_worker.c:199-200 | the intended guard passes exactly for indices inside the vector, and differs from the written one only at the index one past the end |
| Worker.WorkerMain.constructor | src/plugins/hanat/worker/hanat_worker.c:29-47 | empty session cache, no interfaces, empty pool table |
| Worker.WorkerMain.FindInterface | src/plugins/hanat/worker/hanat_worker.c:56-61 | finds the first live slot holding the interface, or reports that none does |
| Worker.WorkerMain.InterfaceAddDel | src/plugins/hanat/worker/hanat_worker.c:49-80 | VALUE_EXIST or NO_SUCH_ENTRY with nothing changed; otherwise slot taken and indexed, or freed and reset to ~0; the interface is configured after exactly when added, and no other interface changes |
| Worker.WorkerMain.CacheAdd | src/plugins/hanat/worker/hanat_worker.c:119-132 | the entry gets the L3 delta and the L4 delta seeded with it; -1 when the key exists (nothing changed), else 0 with the session inserted |
| Worker.WorkerMain.CacheUpdate | src/plugins/hanat/worker/hanat_worker.c:134-156 | the translation is overwritten, the deltas recomputed with the ICMP zero seed, and key, other fields and other sessions kept |
| Worker.WorkerMain.MapperAddDel | src/plugins/hanat/worker/hanat_worker.c:158-187 | a prefix already found gives -1 with no change, for add and delete; an add fills a new pool entry and stores its index, which the same lookup then returns |
| Worker.WorkerMain.FillBuckets | src/plugins/hanat/worker/hanat_worker.c:204-208 | the vector allocated for `n` holds the `n` indices converted to host order, and its extra cell stays 0 |
| Worker.WorkerMain.MapperBuckets | src/plugins/hanat/worker/hanat_worker.c:192-213 | the domain's vector becomes the n host-order indices plus a 0; other domains keep theirs; returns 0 |

## Left out

- The internals of `clib_bihash_*` (bucket layout, capacity, which entries share a bucket) are not modelled. The hash is a map. A full bucket is given as the sequence of keys its entries hold.
- `vlib_time_now` returns a floating-point time; the model takes an integer `now`.
- `hanat_worker_enable`, the API registration in `hanat_worker_init`, `clib_warning` and `printf` are side effects with no state the core reads. `vnet_feature_enable_disable` is code outside the model; its result is a parameter.
- Concurrency is not modelled. The tables are used single-threaded.
- hanat_worker_db.h is not part of this model. The packing of the 16-byte session key, the field types of the session entry and the instruction bit values come from it. The entry's two delta fields are taken to be `ip_csum_t`, and the instructions are a set.
- Sessions.SessionTable.StaleCallback: the source passes `&db`, the address of the pointer, as the callback argument, and then reads it as the table itself. The model uses the table that was meant.
- Sessions.SessionTable.InsertWithStaleReuse: when the bucket is full and no entry is stale, the model still inserts. Bucket capacity is not modelled, and what the bihash then does (fail, so that the source stops at `assert(0)`, or split the bucket) depends on bihash internals outside the model.
- Lpm.PoolDb.LpmAdd: the 32-bit reference counts are unbounded here. Wrap-around after 2^32 adds at one length is not modelled.
- Worker.WorkerMain.MapperAddDel: requires that a delete finds the prefix. That path returns -1. Every other delete reaches `hanat_lpm_64_delete` with a prefix the lookup does not find, so, as `MapperDeleteMissIsFatal` shows, the entry is missing or its length's count is zero. A missing entry stops the source at `assert(0)`. A zero count is caught only by the debug-build `ASSERT`, after the bihash delete has already removed the entry; a release build decrements the count past zero. That path and the follow-up `pool_put_index` of ~0 are not modelled.
- Lpm.PoolDb.LpmDelete: requires the entry present and a positive count at its length, the two conditions the source asserts; the failure paths behind those assertions are not modelled.
- Lpm.PoolDb.LpmAdd, Lpm.PoolDb.LpmDelete, Worker.PrefixKey and Worker.WorkerMain.MapperAddDel: require a prefix length of at most 32. The source never checks it, and a larger `u8` length is not modelled. The table length `len` is the `int` `pfxlen + 32`, and `masked_address64` takes it as a `uint8_t`. For lengths 33 to 223, `len` is 65 to 255 and the mask shifts 64 bits or more, which is undefined behaviour in C. For lengths 224 to 255, `len` is 256 to 287 and wraps to 0 to 31 in the parameter, so the mask is a well-defined shorter mask. For every length above 32, `prefix_length_refcount[len]` indexes past the reference counts. The model reads that array as 65 entries; its declaration is in hanat_worker_db.h, which is not part of this model. Likewise `64 - len` is negative and becomes a huge unsigned bit index in `clib_bitmap_set`.
- Worker.WorkerMain.InterfaceAddDel and Worker.WorkerMain.MapperAddDel: require pools of fewer than 2^32 - 1 slots, so a slot index fits in a `u32` and is never ~0.
- Worker.WorkerMain.MapperBuckets: the `int` loop counter compared with a `u32` count is taken to be unbounded. Releasing the old vector is modelled as setting its cell to null before the cell is overwritten. The method uses the intended guard; the read one past the end that the written guard allows (see Findings) is not modelled.
- Checksum.L4Delta: its own contract states only the case without port rewrites. The value modulo 0xFFFF is proved for seeds that are a widened `int` (`L4DeltaSignExtendedSeed`), which every seed the worker passes is. For an arbitrary 64-bit seed the truncation can drop a carry, as `L3DeltaLosesCarry` shows for the L3 delta.
- Checksum.L4DeltaRepairsSegment and Worker.StoredL4DeltaRepairsSegment: require at most one address rewritten, since with both the stored L3 delta can already be off by a carry (`L3DeltaLosesCarry`). The ICMP checksum, which covers the whole ICMP message, is not modelled as a word sequence.
- Sessions.KeyFromIp: the session key is hashed as 16 bytes (two 64-bit words, hanat_worker_db.c:74-75), and its addresses, ports and protocol take 13 of them, so the source's key holds at most 24 bits of the routing domain. Sessions of two domains that differ only above those bits would share a key there; the model keys on the whole 32-bit domain and keeps them apart.

## Findings

| source | as written | input that shows it | evidently intended | confidence | as-written member | corrected member |
|---|---|---|---|---|---|---|
| src/plugins/hanat/worker/hanat_worker.c:199-200 | `vec_len(lb_buckets) >= fib_index` guards the read of `lb_buckets[fib_index]` | a vector of length 1 and `fib_index` 1 reads one cell past the end | `vec_len(lb_buckets) > fib_index` | not executed | Worker.BucketsGuardAdmitsEnd | Worker.BucketsGuardInBounds |
