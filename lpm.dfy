/**
 * The mapper pool table of the HA-NAT worker (hanat_worker_db.c): a
 * longest-prefix match over 64-bit keys that carry the routing domain (pool id)
 * in the high 32 bits and the IPv4 address in the low 32. Each prefix is stored
 * as an exact-match entry under its masked key; a bitmap records which prefix
 * lengths are in use (bit 64 - len for length len) and a per-length reference
 * count decides when a bit is cleared. A lookup probes the set bits in
 * increasing order, so the longest prefix is tried first.
 *
 * The bihash is modelled as a map; keys and masks are 64-bit bit-vectors.
 */
module Lpm {
  import opened Machine
  import opened Pools

  /** The low `64 - len` bits set: `~0ull >> len`. */
  function LowBits(len: bv8): bv64
    requires len < 64
  {
    0xFFFF_FFFF_FFFF_FFFF >> len
  }

  /** `masked_address64`: the top `len` bits of `addr`, the rest cleared. */
  function MaskedAddress64(addr: bv64, len: bv8): bv64
    requires len <= 64
  {
    if len == 64 then addr else addr & !LowBits(len)
  }

  /** The masked address only has bits of `addr`, and none of the low `64 - len`. */
  lemma MaskKeepsOnlyPrefixBits(addr: bv64, len: bv8)
    requires len <= 64
    ensures MaskedAddress64(addr, len) & addr == MaskedAddress64(addr, len)
    ensures MaskedAddress64(addr, len) << len == 0
  {
  }

  /** Together with the low `64 - len` bits of `addr`, the masked address gives
      `addr` back: the top `len` bits are kept. */
  lemma MaskKeepsPrefixBits(addr: bv64, len: bv8)
    requires len < 64
    ensures MaskedAddress64(addr, len) | (addr & LowBits(len)) == addr
  {
    MaskClearsLowBits(addr, len);
    SplitByMask(addr, LowBits(len));
  }

  /** Below 64, the mask clears exactly the low `64 - len` bits. */
  lemma MaskClearsLowBits(addr: bv64, len: bv8)
    requires len < 64
    ensures MaskedAddress64(addr, len) == addr & !LowBits(len)
  {
  }

  /** The bits of `addr` outside a mask and those inside it make up `addr`. */
  lemma SplitByMask(addr: bv64, m: bv64)
    ensures (addr & !m) | (addr & m) == addr
  {
  }

  /** Length 64 keeps the whole address and length 0 none of it. */
  lemma MaskExtremes(addr: bv64)
    ensures MaskedAddress64(addr, 64) == addr && MaskedAddress64(addr, 0) == 0
  {
  }

  /** Masking twice at the same length changes nothing. */
  lemma MaskIdempotent(addr: bv64, len: bv8)
    requires len <= 64
    ensures MaskedAddress64(MaskedAddress64(addr, len), len) == MaskedAddress64(addr, len)
  {
  }

  /** Masking at a length after masking at a longer one is masking at the shorter one:
      a longer prefix lies inside every shorter prefix of the same address. */
  lemma MaskNested(addr: bv64, shorter: bv8, longer: bv8)
    requires shorter <= longer <= 64
    ensures MaskedAddress64(MaskedAddress64(addr, longer), shorter) == MaskedAddress64(addr, shorter)
  {
  }

  /** `lpm_key`: the routing domain in the high half, the address in the low half. */
  function LpmKey(fibIndex: bv32, address: bv32): bv64
  {
    ((fibIndex as bv64) << 32) | (address as bv64)
  }

  /** The two halves of a key give back the routing domain and the address. */
  lemma LpmKeyHalves(fibIndex: bv32, address: bv32)
    ensures LpmKey(fibIndex, address) >> 32 == fibIndex as bv64
    ensures LpmKey(fibIndex, address) & 0xFFFF_FFFF == address as bv64
  {
  }

  /** Keys masked at 32 bits or more keep the routing domain: prefixes of different
      domains never share an entry. */
  lemma DomainsNeverShareKeys(fib1: bv32, address1: bv32, fib2: bv32, address2: bv32, len: bv8)
    requires 32 <= len <= 64
    requires MaskedAddress64(LpmKey(fib1, address1), len) == MaskedAddress64(LpmKey(fib2, address2), len)
    ensures fib1 == fib2
  {
  }

  /** Keys do not record their length: 10.0.0.0/16 and 10.5.0.0/8 of the same domain
      are stored under the same key. */
  lemma KeysCollideAcrossLengths()
    ensures MaskedAddress64(LpmKey(0, 0x0A00_0000), 16 + 32) == MaskedAddress64(LpmKey(0, 0x0A05_0000), 8 + 32)
  {
  }

  /** A key of the 8-byte-key bihash. */
  datatype Key = Key(bits: bv64)

  /** The bihash key under which `addr` masked at `len` is stored. */
  function BihashKey(addr: bv64, len: nat): Key
    requires len <= 64
  {
    Key(MaskedAddress64(addr, len as bv8))
  }

  /** The lookup state of `hanat_pool_t`: the exact-match entries, the reference
      count per prefix length and the set of bits of the prefix-length bitmap. */
  datatype LpmTable = LpmTable(bihash: map<Key, U32>, refcount: seq<nat>, bitmap: set<nat>)
  {
    /** Lengths run from 0 to 64, and a length's bit is set exactly when its count is positive. */
    ghost predicate Valid()
    {
      && |refcount| == 65
      && (forall b :: b in bitmap ==> b <= 64)
      && (forall len :: 0 <= len <= 64 ==> (64 - len in bitmap <==> refcount[len] > 0))
    }

    /** Bit `i` is set and the key masked at length `64 - i` has an entry. */
    predicate HitAt(addr: bv64, i: nat)
    {
      i <= 64 && i in bitmap && BihashKey(addr, 64 - i) in bihash
    }

    /** The first bit from `i` on that hits: the longest prefix of length at most
        `64 - i` that has an entry. */
    function FirstHit(addr: bv64, i: nat): (r: Option<nat>)
      decreases 65 - i
      ensures r.Some? ==> i <= r.value <= 64 && HitAt(addr, r.value)
                          && forall j :: i <= j < r.value ==> !HitAt(addr, j)
      ensures r.None? ==> forall j :: i <= j ==> !HitAt(addr, j)
    {
      if i > 64 then None
      else if HitAt(addr, i) then Some(i)
      else FirstHit(addr, i + 1)
    }

    /** What `hanat_lpm_64_lookup` returns: the value of the longest matching prefix,
        or ~0 when no prefix matches. */
    function LookupResult(fibIndex: bv32, address: bv32): U32
    {
      var addr := LpmKey(fibIndex, address);
      match FirstHit(addr, 0)
      case None => U32_NONE
      case Some(i) => bihash[BihashKey(addr, 64 - i)]
    }

    /** The table after `hanat_lpm_64_add` of `key` at length `len`: the entry is
        added or overwritten, the count goes up and the bit is set. */
    function Added(key: Key, len: nat, value: U32): (t: LpmTable)
      requires Valid() && len <= 64
      ensures t.Valid()
      ensures t.bihash == bihash[key := value] && t.refcount[len] == refcount[len] + 1
      ensures forall l :: 0 <= l <= 64 && l != len ==> t.refcount[l] == refcount[l]
    {
      LpmTable(bihash[key := value], refcount[len := refcount[len] + 1], bitmap + {64 - len})
    }

    /** The table after `hanat_lpm_64_delete` of `key` at length `len`: the entry is
        removed, the count goes down and the bit is cleared when it reaches zero. */
    function Deleted(key: Key, len: nat): (t: LpmTable)
      requires Valid() && len <= 64 && refcount[len] > 0
      ensures t.Valid()
      ensures t.bihash == bihash - {key} && t.refcount[len] == refcount[len] - 1
      ensures forall l :: 0 <= l <= 64 && l != len ==> t.refcount[l] == refcount[l]
    {
      var n := refcount[len] - 1;
      LpmTable(bihash - {key}, refcount[len := n], if n == 0 then bitmap - {64 - len} else bitmap)
    }
  }

  /** Deleting what was just added, under a key that had no entry, restores the table. */
  lemma AddThenDeleteRestores(t: LpmTable, key: Key, len: nat, value: U32)
    requires t.Valid() && len <= 64 && key !in t.bihash
    ensures t.Added(key, len, value).Deleted(key, len) == t
  {
    var t2 := t.Added(key, len, value).Deleted(key, len);
    assert t2.refcount == t.refcount;
    assert t2.bitmap == t.bitmap by {
      if t.refcount[len] == 0 {
        assert 64 - len !in t.bitmap;
      }
    }
  }

  /** After adding a prefix, every address it covers finds a match at that length or
      a longer one, and finds the added value when no longer prefix matches. */
  lemma LookupAfterAdd(t: LpmTable, fibIndex: bv32, prefix: bv32, pfxlen: nat, value: U32, address: bv32)
    requires t.Valid() && pfxlen <= 32
    requires BihashKey(LpmKey(fibIndex, address), pfxlen + 32) == BihashKey(LpmKey(fibIndex, prefix), pfxlen + 32)
    ensures var t2 := t.Added(BihashKey(LpmKey(fibIndex, prefix), pfxlen + 32), pfxlen + 32, value);
      && t2.FirstHit(LpmKey(fibIndex, address), 0).Some?
      && t2.FirstHit(LpmKey(fibIndex, address), 0).value <= 32 - pfxlen
      && (t2.FirstHit(LpmKey(fibIndex, address), 0) == Some(32 - pfxlen) ==> t2.LookupResult(fibIndex, address) == value)
  {
    var t2 := t.Added(BihashKey(LpmKey(fibIndex, prefix), pfxlen + 32), pfxlen + 32, value);
    assert t2.HitAt(LpmKey(fibIndex, address), 32 - pfxlen);
  }

  /** When no prefix matched an address before, adding a prefix that covers it makes
      the lookup return the added value: every set bit that now hits probes either
      the new key or nothing. */
  lemma LookupAfterAddToMiss(t: LpmTable, fibIndex: bv32, prefix: bv32, pfxlen: nat, value: U32, address: bv32)
    requires t.Valid() && pfxlen <= 32
    requires BihashKey(LpmKey(fibIndex, address), pfxlen + 32) == BihashKey(LpmKey(fibIndex, prefix), pfxlen + 32)
    requires t.FirstHit(LpmKey(fibIndex, address), 0).None?
    ensures t.Added(BihashKey(LpmKey(fibIndex, prefix), pfxlen + 32), pfxlen + 32, value).LookupResult(fibIndex, address) == value
  {
    var key := BihashKey(LpmKey(fibIndex, prefix), pfxlen + 32);
    var t2 := t.Added(key, pfxlen + 32, value);
    var addr := LpmKey(fibIndex, address);
    LookupAfterAdd(t, fibIndex, prefix, pfxlen, value, address);
    var i := t2.FirstHit(addr, 0).value;
    assert !t.HitAt(addr, i);
    assert 64 - (32 - pfxlen) == pfxlen + 32;
    assert BihashKey(addr, 64 - i) == key;
  }

  /** An address of the source and mapper pools (`ip46_address_t`), kept as its bytes. */
  type Ip46Address = seq<U8>

  /** `hanat_pool_entry_t`: an outside prefix of a pool and the mapper serving it. */
  datatype PoolEntry = PoolEntry(poolId: U32, prefix: U32, prefixLen: U8, src: Ip46Address, mapper: Ip46Address, udpPort: U16)

  /** `hanat_pool_t`: the prefix table, the pool of entries it points into and the
      load-balancing bucket vectors per routing domain (`None` for a null vector). */
  class PoolDb {
    var bihash: map<Key, U32>
    const refcount: array<nat>
    var bitmap: set<nat>
    var pools: Pool<PoolEntry>
    var lbBuckets: seq<Option<seq<U32>>>

    function Table(): LpmTable
      reads this, refcount
    {
      LpmTable(bihash, refcount[..], bitmap)
    }

    ghost predicate Valid()
      reads this, refcount
    {
      Table().Valid() && pools.Valid()
    }

    /** `hanat_mapper_table_init` on a zeroed structure. */
    constructor()
      ensures Valid() && bihash == map[] && bitmap == {} && pools == EmptyPool() && lbBuckets == []
      ensures fresh(refcount) && refcount[..] == seq(65, _ => 0)
    {
      bihash := map[];
      refcount := new nat[65](_ => 0);
      bitmap := {};
      pools := EmptyPool();
      lbBuckets := [];
    }

    /** `lpm_64_lookup_core`: the entry under `addr` masked at `pfxlen`, if any. */
    function LookupCore(addr: bv64, pfxlen: U8): (r: Option<U32>)
      requires pfxlen <= 64
      reads this
      ensures r.Some? <==> BihashKey(addr, pfxlen) in bihash
      ensures r.Some? ==> r.value == bihash[BihashKey(addr, pfxlen)]
    {
      var key := BihashKey(addr, pfxlen);
      if key in bihash then Some(bihash[key]) else None
    }

    /** `hanat_lpm_64_lookup`: probe the set bits in increasing order (longest prefix
        first) and return the first entry found, ~0 if none. */
    method Lookup(fibIndex: bv32, address: bv32) returns (r: U32)
      requires Valid()
      ensures r == Table().LookupResult(fibIndex, address)
    {
      var addr := LpmKey(fibIndex, address);
      ghost var t := Table();
      assert t.bitmap == bitmap && t.bihash == bihash;
      var i := 0;
      while i <= 64
        invariant 0 <= i <= 65
        invariant t.FirstHit(addr, 0) == t.FirstHit(addr, i)
      {
        if i in bitmap {
          var v := LookupCore(addr, 64 - i);
          if v.Some? {
            assert t.HitAt(addr, i);
            assert t.FirstHit(addr, i) == Some(i);
            return v.value;
          }
        }
        assert !t.HitAt(addr, i);
        assert t.FirstHit(addr, i) == t.FirstHit(addr, i + 1);
        i := i + 1;
      }
      assert t.FirstHit(addr, i) == None;
      return U32_NONE;
    }

    /** `hanat_lpm_64_add`: store `value` under the address masked at `pfxlen + 32`. */
    method LpmAdd(fibIndex: bv32, address: bv32, pfxlen: U8, value: U32)
      requires Valid() && pfxlen <= 32
      modifies this, refcount
      ensures Valid()
      ensures Table() == old(Table()).Added(BihashKey(LpmKey(fibIndex, address), pfxlen + 32), pfxlen + 32, value)
      ensures pools == old(pools) && lbBuckets == old(lbBuckets)
    {
      var addr := LpmKey(fibIndex, address);
      var len := pfxlen + 32;
      var key := BihashKey(addr, len);
      bihash := bihash[key := value];
      refcount[len] := refcount[len] + 1;
      bitmap := bitmap + {64 - len};
    }

    /** `hanat_lpm_64_delete`: remove the entry under the address masked at
        `pfxlen + 32`. A missing entry and a zero count are fatal in the source. */
    method LpmDelete(fibIndex: bv32, address: bv32, pfxlen: U8)
      requires Valid() && pfxlen <= 32
      requires BihashKey(LpmKey(fibIndex, address), pfxlen + 32) in bihash
      requires refcount[pfxlen + 32] > 0
      modifies this, refcount
      ensures Valid()
      ensures Table() == old(Table()).Deleted(BihashKey(LpmKey(fibIndex, address), pfxlen + 32), pfxlen + 32)
      ensures pools == old(pools) && lbBuckets == old(lbBuckets)
    {
      var addr := LpmKey(fibIndex, address);
      var len := pfxlen + 32;
      var key := BihashKey(addr, len);
      bihash := bihash - {key};
      refcount[len] := refcount[len] - 1;
      if refcount[len] == 0 {
        bitmap := bitmap - {64 - len};
      }
    }
  }
}
