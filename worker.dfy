/**
 * The control-plane operations of the HA-NAT worker (hanat_worker.c): the set of
 * interfaces the worker runs on, the installation and refresh of translation
 * sessions with their precomputed checksum deltas, the mapper pool table and the
 * per-routing-domain load-balancing buckets. `hanat_worker_main` is the
 * `WorkerMain` object; its session table and mapper pool table are the objects of
 * the Sessions and Lpm modules.
 */
module Worker {
  import opened Machine
  import opened Pools
  import opened Checksum
  import opened Sessions
  import opened Lpm

  /** `vec_validate`: grow `v` with `fill` until index `i` exists. */
  function Validate<T>(v: seq<T>, i: nat, fill: T): (r: seq<T>)
    ensures i < |r| && |r| == (if i < |v| then |v| else i + 1)
    ensures r[..|v|] == v
    ensures forall j :: |v| <= j < |r| ==> r[j] == fill
  {
    if i < |v| then v else v + seq(i + 1 - |v|, _ => fill)
  }

  /* ---------------------------------------------------------------------------
   * Interfaces
   * ------------------------------------------------------------------------- */

  /** `hanat_interface_t`; the API mode is kept as its number. */
  datatype Interface = Interface(swIfIndex: U32, mode: U32)

  /** The outcome of `hanat_worker_interface_add_del`: one of the two API errors, or
      whatever enabling or disabling the feature on the interface returned. */
  datatype InterfaceResult = ValueExist | NoSuchEntry | FeatureResult(rv: int)

  /** The interface is configured: some live slot holds it. */
  ghost predicate IsRegistered(p: Pool<Interface>, swIfIndex: U32)
  {
    exists k: nat :: !p.IsFree(k) && p.Elt(k).swIfIndex == swIfIndex
  }

  /** `interface_by_sw_if_index` names the slot of every live interface. */
  ghost predicate IndexedInterfaces(p: Pool<Interface>, bySwIfIndex: seq<U32>)
  {
    && p.Valid()
    && forall k: nat :: !p.IsFree(k) ==>
         p.Elt(k).swIfIndex < |bySwIfIndex| && bySwIfIndex[p.Elt(k).swIfIndex] == k
  }

  /** Under the index, an interface is configured exactly when its reverse entry
      names a live slot holding it; so no interface is configured twice. */
  lemma RegisteredIffIndexed(p: Pool<Interface>, bySwIfIndex: seq<U32>, swIfIndex: U32)
    requires IndexedInterfaces(p, bySwIfIndex)
    ensures IsRegistered(p, swIfIndex) <==>
      (swIfIndex < |bySwIfIndex| && !p.IsFree(bySwIfIndex[swIfIndex]) && p.Elt(bySwIfIndex[swIfIndex]).swIfIndex == swIfIndex)
    ensures forall k1: nat, k2: nat :: !p.IsFree(k1) && !p.IsFree(k2) && p.Elt(k1).swIfIndex == swIfIndex && p.Elt(k2).swIfIndex == swIfIndex ==> k1 == k2
  {
  }

  /* ---------------------------------------------------------------------------
   * Session checksum deltas
   * ------------------------------------------------------------------------- */

  /** The entry `hanat_worker_cache_add` stores: the L3 delta of the address rewrite,
      and the L4 delta of the port rewrite seeded with that L3 delta, whatever the
      protocol. Both are returned as C `int`s and widened back to `ip_csum_t`. */
  function WithAddDeltas(key: SessionKey, e: SessionEntry): (r: SessionEntry)
  {
    var c := SignExtend(L3Delta(e.instructions, key.sa, e.postSa, key.da, e.postDa));
    e.(l4Checksum := SignExtend(L4Delta(e.instructions, c, key.sp, e.postSp, key.dp, e.postDp)), checksum := c)
  }

  /** The entry `hanat_worker_cache_update` leaves: the new translation, its L3
      delta, and its L4 delta seeded with the L3 delta except for ICMP, whose
      checksum covers no pseudo-header and which is seeded with zero. */
  function Updated(key: SessionKey, e: SessionEntry, instructions: set<Instruction>, fibIndex: U32,
                   sa: U32, da: U32, sport: U16, dport: U16): (r: SessionEntry)
  {
    var c := SignExtend(L3Delta(instructions, key.sa, sa, key.da, da));
    var seed := if key.proto == IP_PROTOCOL_ICMP then 0 else c;
    e.(instructions := instructions, fibIndex := fibIndex, postSa := sa, postDa := da,
       postSp := sport, postDp := dport,
       l4Checksum := SignExtend(L4Delta(instructions, seed, key.sp, sport, key.dp, dport)), checksum := c)
  }

  /** The two deltas only depend on the translation: the entry's other fields (its
      timestamp, buffer, tunnel flag) are kept. */
  lemma AddDeltasKeepOtherFields(key: SessionKey, e: SessionEntry)
    ensures var r := WithAddDeltas(key, e);
      r.(checksum := e.checksum, l4Checksum := e.l4Checksum) == e
  {
  }

  /** For TCP and UDP, refreshing a session with the translation it already has
      recomputes exactly the deltas it was added with. */
  lemma UpdateMatchesAddOffIcmp(key: SessionKey, e: SessionEntry)
    requires key.proto != IP_PROTOCOL_ICMP
    ensures Updated(key, e, e.instructions, e.fibIndex, e.postSa, e.postDa, e.postSp, e.postDp) == WithAddDeltas(key, e)
  {
  }

  /** For an ICMP session with no port rewrite, a refresh stores a zero L4 delta,
      whereas adding it stored the L3 delta as the L4 delta: the two disagree as soon
      as an address is rewritten to a different value. */
  lemma AddAndUpdateDifferOnIcmp(key: SessionKey, e: SessionEntry)
    requires key.proto == IP_PROTOCOL_ICMP
    requires SourcePort !in e.instructions && DestinationPort !in e.instructions
    ensures Updated(key, e, e.instructions, e.fibIndex, e.postSa, e.postDa, e.postSp, e.postDp).l4Checksum == 0
    ensures WithAddDeltas(key, e).l4Checksum == WithAddDeltas(key, e).checksum
  {
    Int32SignExtend(L3Delta(e.instructions, key.sa, e.postSa, key.da, e.postDa));
  }

  /** A concrete ICMP session whose source address 0.0.0.0 is rewritten to 0.0.0.1:
      added, it carries an L4 delta of 1; refreshed with the same translation, 0. */
  lemma IcmpAddAndUpdateExample()
    ensures var key := SessionKey(0, 0, 0, 0, IP_PROTOCOL_ICMP, 0);
      var e := ZERO_ENTRY.(instructions := {SourceAddress}, postSa := 1);
      && WithAddDeltas(key, e).l4Checksum == 1
      && Updated(key, e, e.instructions, e.fibIndex, e.postSa, e.postDa, e.postSp, e.postDp).l4Checksum == 0
  {
    var key := SessionKey(0, 0, 0, 0, IP_PROTOCOL_ICMP, 0);
    var e := ZERO_ENTRY.(instructions := {SourceAddress}, postSa := 1);
    assert L3Sum(e.instructions, 0, 1, 0, 0) == 1;
    AddAndUpdateDifferOnIcmp(key, e);
  }

  /** With one address rewritten, the L3 delta a session stores, added or refreshed,
      repairs the checksum of the IPv4 header it translates. */
  lemma StoredDeltaRepairsHeader(h: seq<U16>, key: SessionKey, e: SessionEntry)
    requires |h| >= 10 && Field32(h, IP4_SA_WORD) == key.sa && Field32(h, IP4_DA_WORD) == key.da
    requires SourceAddress !in e.instructions || DestinationAddress !in e.instructions
    ensures Congruent16(OnesSum16(TranslateAddresses(h, e.instructions, e.postSa, e.postDa)),
                        OnesSum16(h) + WithAddDeltas(key, e).checksum)
    ensures Congruent16(OnesSum16(TranslateAddresses(h, e.instructions, e.postSa, e.postDa)),
                        OnesSum16(h) + Updated(key, e, e.instructions, e.fibIndex, e.postSa, e.postDa, e.postSp, e.postDp).checksum)
  {
    L3DeltaRepairsHeader(h, e.instructions, e.postSa, e.postDa);
  }

  /** With one address rewritten, the L4 delta a TCP or UDP session stores, added or
      refreshed, repairs the transport checksum over the pseudo-header and the segment
      it translates. */
  lemma StoredL4DeltaRepairsSegment(pseudo: seq<U16>, t: seq<U16>, key: SessionKey, e: SessionEntry)
    requires AddressLayout(pseudo, PSEUDO_SA_WORD, PSEUDO_DA_WORD) && |t| >= 2
    requires Field32(pseudo, PSEUDO_SA_WORD) == key.sa && Field32(pseudo, PSEUDO_DA_WORD) == key.da
    requires t[SP_WORD] == key.sp && t[DP_WORD] == key.dp
    requires SourceAddress !in e.instructions || DestinationAddress !in e.instructions
    ensures Congruent16(OnesSum16(RewriteAddresses(pseudo, PSEUDO_SA_WORD, PSEUDO_DA_WORD, e.instructions, e.postSa, e.postDa)
                                  + TranslatePorts(t, e.instructions, e.postSp, e.postDp)),
                        OnesSum16(pseudo + t) + WithAddDeltas(key, e).l4Checksum)
    ensures key.proto != IP_PROTOCOL_ICMP ==>
      Congruent16(OnesSum16(RewriteAddresses(pseudo, PSEUDO_SA_WORD, PSEUDO_DA_WORD, e.instructions, e.postSa, e.postDa)
                            + TranslatePorts(t, e.instructions, e.postSp, e.postDp)),
                  OnesSum16(pseudo + t) + Updated(key, e, e.instructions, e.fibIndex, e.postSa, e.postDa, e.postSp, e.postDp).l4Checksum)
  {
    L4DeltaRepairsSegment(pseudo, t, e.instructions, e.postSa, e.postDa, e.postSp, e.postDp);
    if key.proto != IP_PROTOCOL_ICMP {
      UpdateMatchesAddOffIcmp(key, e);
    }
  }

  /* ---------------------------------------------------------------------------
   * Mapper pool table
   * ------------------------------------------------------------------------- */

  /** The pool table key of a mapper prefix (given in network order). */
  function PrefixKey(poolId: U32, prefix: U32, prefixLen: U8): Key
    requires prefixLen <= 32
  {
    BihashKey(LpmKey(poolId as bv32, Ntohl(prefix) as bv32), prefixLen + 32)
  }

  /** The existence check of `hanat_worker_mapper_add_del` comes before the add/delete
      branch, so a delete only reaches `hanat_lpm_64_delete` when the prefix is not
      found; and then, when no entry holds ~0, the delete cannot succeed: either the
      bihash has no entry under the prefix key, or the count of its length is zero. */
  lemma MapperDeleteMissIsFatal(t: LpmTable, poolId: U32, prefix: U32, prefixLen: U8)
    requires t.Valid() && prefixLen <= 32
    requires forall k :: k in t.bihash ==> t.bihash[k] != U32_NONE
    requires t.LookupResult(poolId as bv32, Ntohl(prefix) as bv32) == U32_NONE
    ensures !(PrefixKey(poolId, prefix, prefixLen) in t.bihash && t.refcount[prefixLen + 32] > 0)
  {
    var addr := LpmKey(poolId as bv32, Ntohl(prefix) as bv32);
    assert t.FirstHit(addr, 0).None?;
    assert !t.HitAt(addr, 32 - prefixLen);
    assert 64 - (32 - prefixLen) == prefixLen + 32;
  }

  /** The bucket vector `hanat_worker_mapper_buckets` installs: the `n` mapper
      indices in host order, and the extra zero slot `vec_validate(b, n)` allocates. */
  function BucketVector(mapperIndex: seq<U32>, n: nat): seq<U32>
    requires n <= |mapperIndex|
  {
    seq(n + 1, j requires 0 <= j <= n => if j < n then Ntohl(mapperIndex[j]) else 0)
  }

  /** Converting the installed buckets back to network order gives the indices the
      caller passed; the vector is one longer than `n` and ends with zero. */
  lemma BucketVectorRoundTrip(mapperIndex: seq<U32>, n: nat)
    requires n <= |mapperIndex|
    ensures |BucketVector(mapperIndex, n)| == n + 1 && BucketVector(mapperIndex, n)[n] == 0
    ensures forall j :: 0 <= j < n ==> Ntohl(BucketVector(mapperIndex, n)[j]) == mapperIndex[j]
  {
    forall j | 0 <= j < n
      ensures Ntohl(BucketVector(mapperIndex, n)[j]) == mapperIndex[j]
    {
      NtohlInvolution(mapperIndex[j]);
    }
  }

  /** The guard of `hanat_worker_mapper_buckets` as written: the vector exists and
      its length is at least the routing domain index. */
  predicate BucketsGuardAsWritten(length: nat, fibIndex: nat)
  {
    length > 0 && length >= fibIndex
  }

  /** The guard as evidently intended: the element at the routing domain index exists. */
  predicate BucketsGuard(length: nat, fibIndex: nat)
  {
    length > 0 && length > fibIndex
  }

  /** For every non-empty vector, the routing domain index equal to its length passes
      the guard as written but not the intended one: the written guard reads one past
      the end. */
  lemma BucketsGuardAdmitsEnd(length: nat)
    requires length > 0
    ensures BucketsGuardAsWritten(length, length) && !BucketsGuard(length, length)
  {
  }

  /** The intended guard passes exactly for the indices inside the vector, and only
      narrows the written one by the index one past the end. */
  lemma BucketsGuardInBounds(length: nat, fibIndex: nat)
    ensures BucketsGuard(length, fibIndex) <==> fibIndex < length
    ensures BucketsGuardAsWritten(length, fibIndex) <==> BucketsGuard(length, fibIndex) || (length > 0 && fibIndex == length)
  {
  }

  /* ---------------------------------------------------------------------------
   * The worker
   * ------------------------------------------------------------------------- */

  /** `hanat_worker_main_t`: the session cache, the configured interfaces with their
      reverse index, and the mapper pool table. */
  class WorkerMain {
    const db: SessionTable
    const poolDb: PoolDb
    var interfaces: Pool<Interface>
    var interfaceBySwIfIndex: seq<U32>

    /** Both tables and the interface index are consistent, and no mapper index in
        the pool table is ~0, the value a lookup miss returns. */
    ghost predicate Valid()
      reads this, db, poolDb, poolDb.refcount
    {
      && db.Valid() && poolDb.Valid() && IndexedInterfaces(interfaces, interfaceBySwIfIndex)
      && forall k :: k in poolDb.bihash ==> poolDb.bihash[k] != U32_NONE
    }

    /** `hanat_worker_init`: an empty session cache, no interfaces, an empty pool table. */
    constructor()
      ensures Valid() && fresh(db) && fresh(poolDb) && fresh(poolDb.refcount)
      ensures db.sessions == EmptyPool() && db.cache == map[]
      ensures poolDb.Table() == LpmTable(map[], seq(65, _ => 0), {}) && poolDb.pools == EmptyPool()
      ensures interfaces == EmptyPool() && interfaceBySwIfIndex == []
    {
      db := new SessionTable();
      poolDb := new PoolDb();
      interfaces := EmptyPool();
      interfaceBySwIfIndex := [];
    }

    /** The `pool_foreach` scan of `hanat_worker_interface_add_del`: the first live
        slot holding `swIfIndex`, if any. */
    method FindInterface(swIfIndex: U32) returns (r: Option<nat>)
      requires interfaces.Valid()
      ensures r.Some? ==> !interfaces.IsFree(r.value) && interfaces.Elt(r.value).swIfIndex == swIfIndex
      ensures r.Some? ==> forall j: nat :: j < r.value && !interfaces.IsFree(j) ==> interfaces.Elt(j).swIfIndex != swIfIndex
      ensures r.None? <==> !IsRegistered(interfaces, swIfIndex)
    {
      var k := 0;
      while k < |interfaces.elts|
        invariant k <= |interfaces.elts|
        invariant forall j: nat :: j < k && !interfaces.IsFree(j) ==> interfaces.Elt(j).swIfIndex != swIfIndex
      {
        if interfaces.elts[k].Some? && interfaces.elts[k].value.swIfIndex == swIfIndex {
          return Some(k);
        }
        k := k + 1;
      }
      return None;
    }

    /** `hanat_worker_interface_add_del`. Adding a configured interface fails with
        VALUE_EXIST and deleting an unconfigured one with NO_SUCH_ENTRY, changing
        nothing; otherwise the interface is stored in a new slot and indexed, or its
        slot freed and its reverse entry set to ~0, and the result is what enabling
        or disabling the feature returned (`featureRv`). Afterwards the interface is
        configured exactly when `isAdd`, and no other interface changes state. */
    method InterfaceAddDel(swIfIndex: U32, isAdd: bool, mode: U32, featureRv: int) returns (r: InterfaceResult)
      requires Valid() && |interfaces.elts| < U32_NONE
      modifies this
      ensures Valid()
      ensures IsRegistered(interfaces, swIfIndex) <==> isAdd
      ensures forall s: U32 :: s != swIfIndex ==> (IsRegistered(interfaces, s) <==> old(IsRegistered(interfaces, s)))
      ensures isAdd && old(IsRegistered(interfaces, swIfIndex)) ==>
                r == ValueExist && interfaces == old(interfaces) && interfaceBySwIfIndex == old(interfaceBySwIfIndex)
      ensures !isAdd && !old(IsRegistered(interfaces, swIfIndex)) ==>
                r == NoSuchEntry && interfaces == old(interfaces) && interfaceBySwIfIndex == old(interfaceBySwIfIndex)
      ensures isAdd && !old(IsRegistered(interfaces, swIfIndex)) ==>
                var (p, k) := old(interfaces).Get(Interface(swIfIndex, mode));
                r == FeatureResult(featureRv) && interfaces == p
                && interfaceBySwIfIndex == Validate(old(interfaceBySwIfIndex), swIfIndex, 0)[swIfIndex := k]
      ensures !isAdd && old(IsRegistered(interfaces, swIfIndex)) ==>
                r == FeatureResult(featureRv)
                && interfaces == old(interfaces).Put(old(interfaceBySwIfIndex)[swIfIndex])
                && interfaceBySwIfIndex == old(interfaceBySwIfIndex)[swIfIndex := U32_NONE]
    {
      ghost var p0, by0 := interfaces, interfaceBySwIfIndex;
      RegisteredIffIndexed(p0, by0, swIfIndex);
      var found := FindInterface(swIfIndex);
      if isAdd {
        if found.Some? {
          return ValueExist;
        }
        var (p, k) := interfaces.Get(Interface(swIfIndex, mode));
        interfaces := p;
        interfaceBySwIfIndex := Validate(interfaceBySwIfIndex, swIfIndex, 0)[swIfIndex := k];
        forall n: nat | !interfaces.IsFree(n)
          ensures interfaces.Elt(n).swIfIndex < |interfaceBySwIfIndex|
          ensures interfaceBySwIfIndex[interfaces.Elt(n).swIfIndex] == n
        {
          if n != k {
            assert !p0.IsFree(n) && interfaces.Elt(n) == p0.Elt(n);
          }
        }
        assert !interfaces.IsFree(k) && interfaces.Elt(k).swIfIndex == swIfIndex;
        forall s: U32 | s != swIfIndex && old(IsRegistered(interfaces, s))
          ensures IsRegistered(interfaces, s)
        {
          var j: nat :| !p0.IsFree(j) && p0.Elt(j).swIfIndex == s;
          assert j != k && !interfaces.IsFree(j) && interfaces.Elt(j) == p0.Elt(j);
        }
      } else {
        if found.None? {
          return NoSuchEntry;
        }
        var k := found.value;
        interfaces := interfaces.Put(k);
        interfaceBySwIfIndex := interfaceBySwIfIndex[swIfIndex := U32_NONE];
        forall n: nat | !interfaces.IsFree(n)
          ensures interfaces.Elt(n).swIfIndex < |interfaceBySwIfIndex|
          ensures interfaceBySwIfIndex[interfaces.Elt(n).swIfIndex] == n
        {
          assert !p0.IsFree(n) && interfaces.Elt(n) == p0.Elt(n);
        }
        forall j: nat | !interfaces.IsFree(j)
          ensures interfaces.Elt(j).swIfIndex != swIfIndex
        {
          assert !p0.IsFree(j) && interfaces.Elt(j) == p0.Elt(j);
        }
        forall s: U32 | s != swIfIndex && old(IsRegistered(interfaces, s))
          ensures IsRegistered(interfaces, s)
        {
          var j: nat :| !p0.IsFree(j) && p0.Elt(j).swIfIndex == s;
          assert j != k && !interfaces.IsFree(j) && interfaces.Elt(j) == p0.Elt(j);
        }
      }
      r := FeatureResult(featureRv);
    }

    /** `hanat_worker_cache_add`: computes the entry's two deltas, writes them into the
        caller's entry (`stored`) and adds the session; -1 when the key already has
        one, in which case the table is unchanged. */
    method CacheAdd(key: SessionKey, entry: SessionEntry, now: int, fullBucket: seq<SessionKey>)
      returns (rv: int, stored: SessionEntry)
      requires Valid() && Indexed(db.sessions, db.cache, fullBucket)
      modifies db
      ensures Valid()
      ensures stored == WithAddDeltas(key, entry)
      ensures old(db.Find(key)).Some? ==> rv == -1 && db.sessions == old(db.sessions) && db.cache == old(db.cache)
      ensures old(db.Find(key)).None? ==>
                var (p, c, _) := Insert(old(db.sessions), old(db.cache), Session(key, stored),
                                        FirstStale(old(db.sessions), old(db.cache), fullBucket, now));
                rv == 0 && db.sessions == p && db.cache == c
    {
      var c := SignExtend(L3Delta(entry.instructions, key.sa, entry.postSa, key.da, entry.postDa));
      var l4 := L4Delta(entry.instructions, c, key.sp, entry.postSp, key.dp, entry.postDp);
      stored := entry.(l4Checksum := SignExtend(l4), checksum := c);
      var s := db.Add(key, stored, now, fullBucket);
      rv := if s.None? then -1 else 0;
    }

    /** `hanat_worker_cache_update`: gives the live session in `slot` a new translation
        and recomputes its deltas; its key, its slot and every other session stay. */
    method CacheUpdate(slot: nat, instructions: set<Instruction>, fibIndex: U32,
                       sa: U32, da: U32, sport: U16, dport: U16)
      requires Valid() && !db.sessions.IsFree(slot)
      modifies db
      ensures Valid()
      ensures var s := old(db.sessions).Elt(slot);
        && db.sessions == old(db.sessions).Set(slot, Session(s.key, Updated(s.key, s.entry, instructions, fibIndex, sa, da, sport, dport)))
        && db.cache == old(db.cache)
    {
      var key := db.sessions.Elt(slot).key;
      var e := db.sessions.Elt(slot).entry.(instructions := instructions, fibIndex := fibIndex,
                                            postSa := sa, postDa := da, postSp := sport, postDp := dport);
      var c := SignExtend(L3Delta(instructions, key.sa, e.postSa, key.da, e.postDa));
      var l4;
      if key.proto == IP_PROTOCOL_ICMP {
        l4 := L4Delta(e.instructions, 0, key.sp, e.postSp, key.dp, e.postDp);
      } else {
        l4 := L4Delta(e.instructions, c, key.sp, e.postSp, key.dp, e.postDp);
      }
      e := e.(l4Checksum := SignExtend(l4), checksum := c);
      db.SetEntry(slot, e);
    }

    /** `hanat_worker_mapper_add_del`. The prefix is looked up first: when it is
        found the call fails with -1 and nothing changes, for an add and for a delete
        alike. Otherwise (an add) a zeroed pool entry is taken, filled, and its index
        returned and stored in the pool table under the prefix. A delete of a prefix
        that is not found fails fatally in the source (`MapperDeleteMissIsFatal`). */
    method MapperAddDel(isAdd: bool, poolId: U32, prefix: U32, prefixLen: U8,
                        mapper: Ip46Address, src: Ip46Address, udpPort: U16)
      returns (rv: int, mapperIndex: Option<U32>)
      requires Valid() && prefixLen <= 32
      requires |poolDb.pools.elts| < U32_NONE
      requires !isAdd ==> poolDb.Table().LookupResult(poolId as bv32, Ntohl(prefix) as bv32) != U32_NONE
      modifies poolDb, poolDb.refcount
      ensures Valid()
      ensures poolDb.lbBuckets == old(poolDb.lbBuckets)
      ensures old(poolDb.Table()).LookupResult(poolId as bv32, Ntohl(prefix) as bv32) != U32_NONE ==>
                && rv == -1 && mapperIndex.None?
                && poolDb.Table() == old(poolDb.Table()) && poolDb.pools == old(poolDb.pools)
      ensures old(poolDb.Table()).LookupResult(poolId as bv32, Ntohl(prefix) as bv32) == U32_NONE ==>
                var (p, i) := old(poolDb.pools).Get(PoolEntry(poolId, prefix, prefixLen, src, mapper, udpPort));
                && rv == 0 && mapperIndex == Some(i) && poolDb.pools == p
                && poolDb.Table() == old(poolDb.Table()).Added(PrefixKey(poolId, prefix, prefixLen), prefixLen + 32, i)
                && poolDb.Table().LookupResult(poolId as bv32, Ntohl(prefix) as bv32) == i
    {
      var mi := poolDb.Lookup(poolId as bv32, Ntohl(prefix) as bv32);
      if mi != U32_NONE {
        return -1, None;
      }
      var (p, i) := poolDb.pools.Get(PoolEntry(poolId, prefix, prefixLen, src, mapper, udpPort));
      poolDb.pools := p;
      ghost var t := poolDb.Table();
      assert t.FirstHit(LpmKey(poolId as bv32, Ntohl(prefix) as bv32), 0).None?;
      poolDb.LpmAdd(poolId as bv32, Ntohl(prefix) as bv32, prefixLen, i);
      LookupAfterAddToMiss(t, poolId as bv32, Ntohl(prefix) as bv32, prefixLen, i, Ntohl(prefix) as bv32);
      return 0, Some(i);
    }

    /** The vector `vec_validate(b, n)` allocates and the loop of
        `hanat_worker_mapper_buckets` fills: the `n` indices in host order, then zero. */
    static method FillBuckets(mapperIndex: seq<U32>, n: U32) returns (v: seq<U32>)
      requires n <= |mapperIndex|
      ensures v == BucketVector(mapperIndex, n)
    {
      var b := new U32[n + 1](_ => 0);
      var i := 0;
      while i < n
        invariant 0 <= i <= n
        invariant forall j :: 0 <= j < i ==> b[j] == Ntohl(mapperIndex[j])
        invariant forall j :: i <= j <= n ==> b[j] == 0
      {
        b[i] := Ntohl(mapperIndex[i]);
        i := i + 1;
      }
      v := b[..];
      assert v == BucketVector(mapperIndex, n);
    }

    /** `hanat_worker_mapper_buckets`: installs, for routing domain `fibIndex`, a new
        bucket vector holding the `n` mapper indices in host order (plus a trailing
        zero), growing the per-domain vector with null entries as needed; the old
        vector of that domain, if any, is released. Returns 0. */
    method MapperBuckets(fibIndex: U32, n: U32, mapperIndex: seq<U32>) returns (rv: int)
      requires Valid() && n <= |mapperIndex|
      modifies poolDb
      ensures Valid() && rv == 0
      ensures poolDb.lbBuckets == Validate(old(poolDb.lbBuckets), fibIndex, None)[fibIndex := Some(BucketVector(mapperIndex, n))]
      ensures forall f :: 0 <= f < |old(poolDb.lbBuckets)| && f != fibIndex ==> poolDb.lbBuckets[f] == old(poolDb.lbBuckets)[f]
      ensures poolDb.bihash == old(poolDb.bihash) && poolDb.bitmap == old(poolDb.bitmap) && poolDb.pools == old(poolDb.pools)
    {
      var lb := poolDb.lbBuckets;
      // The intended guard: as written, an index equal to the length passes and
      // the old vector is read one past the end, which is not modelled.
      if BucketsGuard(|lb|, fibIndex) && lb[fibIndex].Some? {
        lb := lb[fibIndex := None];
      }
      lb := Validate(lb, fibIndex, None);
      var b := FillBuckets(mapperIndex, n);
      poolDb.lbBuckets := lb[fibIndex := Some(b)];
      assert poolDb.Table() == old(poolDb.Table());
      rv := 0;
    }
  }
}
