/**
 * The session cache of the HA-NAT worker (hanat_worker_db.c): sessions live in
 * a pool, and a hash index (a 16-byte-key bihash) maps each session key to the
 * index of its pool slot. Inserting into a hash bucket that is full may reuse
 * the place of a session idle for at least 10 time units: the stale callback
 * frees that session's slot and the new key overwrites the old one.
 *
 * The bihash is modelled as a map from key to slot index, and a full bucket as
 * the sequence of keys the bihash offers to the stale callback, in order.
 */
module Sessions {
  import opened Machine
  import opened Pools
  import opened Checksum

  /** IP protocol numbers (RFC 790) and ICMP echo message types (RFC 792). */
  const IP_PROTOCOL_ICMP: U8 := 1
  const IP_PROTOCOL_TCP: U8 := 6
  const IP_PROTOCOL_UDP: U8 := 17
  const ICMP4_ECHO_REPLY: U8 := 0
  const ICMP4_ECHO_REQUEST: U8 := 8

  /** A session idle for this long may be reused by an insertion. */
  const STALE_AFTER: int := 10

  /** The 5-tuple and routing domain a session is keyed on. Addresses and ports are
      kept as loaded from the packet (network byte order). */
  datatype SessionKey = SessionKey(sa: U32, da: U32, sp: U16, dp: U16, proto: U8, fibIndex: U32)

  /** The translation state of a session. `checksum` and `l4Checksum` hold the
      precomputed deltas widened to `ip_csum_t`; `lastHeard` is the time of the
      last activity; `buffer` is the one packet held while the session is pending. */
  datatype SessionEntry = SessionEntry(
    postSa: U32, postDa: U32, postSp: U16, postDp: U16,
    instructions: set<Instruction>,
    checksum: U64, l4Checksum: U64,
    fibIndex: U32, tunnel: bool, lastHeard: int, buffer: U32)

  /** The entry of a slot fresh from `pool_get_zero`. */
  const ZERO_ENTRY: SessionEntry := SessionEntry(0, 0, 0, 0, {}, 0, 0, 0, false, 0, 0)

  datatype Session = Session(key: SessionKey, entry: SessionEntry)

  /** The fields of an IPv4 packet the key is read from: the protocol, the two
      addresses and the first bytes of the transport header. */
  datatype Ip4Packet = Ip4Packet(protocol: U8, srcAddress: U32, dstAddress: U32, l4: seq<U8>)

  /** The transport header bytes a key extraction may read: a TCP or UDP header's
      ports, or an ICMP header and the echo identifier after it. */
  predicate L4Readable(p: Ip4Packet)
  {
    |p.l4| >= 8
  }

  /** A 16-bit field loaded from packet bytes by a little-endian host. */
  function Load16(b: seq<U8>, o: nat): U16
    requires o + 1 < |b|
  {
    b[o] as int + 0x100 * (b[o + 1] as int)
  }

  /** An ICMP echo request or echo reply. */
  predicate IsEcho(p: Ip4Packet)
    requires L4Readable(p)
  {
    p.protocol == IP_PROTOCOL_ICMP && (p.l4[0] == ICMP4_ECHO_REQUEST || p.l4[0] == ICMP4_ECHO_REPLY)
  }

  /** `hanat_key_from_ip`: TCP and UDP key on their ports, ICMP echo messages on
      their identifier in both port fields, anything else on ports 0. */
  function KeyFromIp(fibIndex: U32, p: Ip4Packet): (key: SessionKey)
    requires L4Readable(p)
    ensures key.sa == p.srcAddress && key.da == p.dstAddress
    ensures key.proto == p.protocol && key.fibIndex == fibIndex
    ensures p.protocol == IP_PROTOCOL_TCP || p.protocol == IP_PROTOCOL_UDP ==>
              key.sp == Load16(p.l4, 0) && key.dp == Load16(p.l4, 2)
    ensures IsEcho(p) ==> key.sp == key.dp == Load16(p.l4, 4)
    ensures p.protocol != IP_PROTOCOL_TCP && p.protocol != IP_PROTOCOL_UDP && !IsEcho(p) ==>
              key.sp == 0 && key.dp == 0
  {
    var ports: (U16, U16) :=
      if p.protocol == IP_PROTOCOL_TCP || p.protocol == IP_PROTOCOL_UDP then
        (Load16(p.l4, 0), Load16(p.l4, 2))
      else if IsEcho(p) then
        (Load16(p.l4, 4), Load16(p.l4, 4))
      else
        (0, 0);
    SessionKey(p.srcAddress, p.dstAddress, ports.0, ports.1, p.protocol, fibIndex)
  }

  /** The key of the other direction of a flow: addresses and ports swapped. */
  function Reversed(k: SessionKey): SessionKey
  {
    k.(sa := k.da, da := k.sa, sp := k.dp, dp := k.sp)
  }

  /** A reply is keyed on the reverse of its request's key: for TCP and UDP when
      the reply swaps addresses and ports, and for an ICMP echo request and its
      reply because both carry the identifier in both port fields. */
  lemma ReplyKeyIsReversed(fibIndex: U32, request: Ip4Packet, reply: Ip4Packet)
    requires L4Readable(request) && L4Readable(reply)
    requires reply.protocol == request.protocol
    requires reply.srcAddress == request.dstAddress && reply.dstAddress == request.srcAddress
    requires request.protocol == IP_PROTOCOL_TCP || request.protocol == IP_PROTOCOL_UDP || IsEcho(request)
    requires request.protocol == IP_PROTOCOL_TCP || request.protocol == IP_PROTOCOL_UDP ==>
               Load16(reply.l4, 0) == Load16(request.l4, 2) && Load16(reply.l4, 2) == Load16(request.l4, 0)
    requires IsEcho(request) ==> IsEcho(reply) && Load16(reply.l4, 4) == Load16(request.l4, 4)
    ensures KeyFromIp(fibIndex, reply) == Reversed(KeyFromIp(fibIndex, request))
  {
  }

  /** `hanat_session_stale_cb`'s test: no activity for `STALE_AFTER` time units. */
  predicate IsStale(s: Session, now: int)
  {
    now >= s.entry.lastHeard + STALE_AFTER
  }

  /** The hash index and the pool agree: every indexed key names a live slot
      holding that key, and every live slot is indexed under its own key. So a
      key has at most one live session. */
  ghost predicate TableInvariant(p: Pool<Session>, cache: map<SessionKey, nat>)
  {
    && p.Valid()
    && (forall k :: k in cache ==> !p.IsFree(cache[k]) && p.Elt(cache[k]).key == k)
    && (forall i: nat :: !p.IsFree(i) ==> p.Elt(i).key in cache && cache[p.Elt(i).key] == i)
  }

  /** Every key of `bucket` is indexed and names a live slot. */
  predicate Indexed(p: Pool<Session>, cache: map<SessionKey, nat>, bucket: seq<SessionKey>)
  {
    forall j :: 0 <= j < |bucket| ==> bucket[j] in cache && !p.IsFree(cache[bucket[j]])
  }

  /** The entry of a full bucket that the stale callback accepts: the first whose
      session is stale, if any. */
  function FirstStale(p: Pool<Session>, cache: map<SessionKey, nat>, bucket: seq<SessionKey>, now: int): (r: Option<SessionKey>)
    requires Indexed(p, cache, bucket)
    ensures r.Some? ==> exists j :: 0 <= j < |bucket| && bucket[j] == r.value
                          && IsStale(p.Elt(cache[bucket[j]]), now)
                          && forall i :: 0 <= i < j ==> !IsStale(p.Elt(cache[bucket[i]]), now)
    ensures r.None? ==> forall j :: 0 <= j < |bucket| ==> !IsStale(p.Elt(cache[bucket[j]]), now)
  {
    if bucket == [] then None
    else if IsStale(p.Elt(cache[bucket[0]]), now) then Some(bucket[0])
    else
      var r := FirstStale(p, cache, bucket[1..], now);
      assert r.Some? ==> exists j :: 0 <= j < |bucket| && bucket[j] == r.value
                          && IsStale(p.Elt(cache[bucket[j]]), now)
                          && forall i :: 0 <= i < j ==> !IsStale(p.Elt(cache[bucket[i]]), now) by {
        if r.Some? {
          var j :| 0 <= j < |bucket[1..]| && bucket[1..][j] == r.value
                   && IsStale(p.Elt(cache[bucket[1..][j]]), now)
                   && forall i :: 0 <= i < j ==> !IsStale(p.Elt(cache[bucket[1..][i]]), now);
          assert bucket[j + 1] == r.value;
          assert forall i :: 0 <= i < j + 1 ==> !IsStale(p.Elt(cache[bucket[i]]), now) by {
            forall i | 0 <= i < j + 1 ensures !IsStale(p.Elt(cache[bucket[i]]), now) {
              if i > 0 { assert bucket[i] == bucket[1..][i - 1]; }
            }
          }
        }
      }
      r
  }

  /** The first stale entry is the one the scan stops at. */
  lemma {:induction false} FirstStaleIs(p: Pool<Session>, cache: map<SessionKey, nat>, bucket: seq<SessionKey>, now: int, j: nat)
    requires Indexed(p, cache, bucket) && j < |bucket|
    requires forall n :: 0 <= n < j ==> !IsStale(p.Elt(cache[bucket[n]]), now)
    requires IsStale(p.Elt(cache[bucket[j]]), now)
    ensures FirstStale(p, cache, bucket, now) == Some(bucket[j])
  {
    if j > 0 {
      assert !IsStale(p.Elt(cache[bucket[0]]), now);
      assert forall n :: 0 <= n < j - 1 ==> bucket[1..][n] == bucket[n + 1];
      FirstStaleIs(p, cache, bucket[1..], now, j - 1);
    }
  }

  /** A scan that finds nothing stale means there is no first stale entry. */
  lemma {:induction false} FirstStaleIsNone(p: Pool<Session>, cache: map<SessionKey, nat>, bucket: seq<SessionKey>, now: int)
    requires Indexed(p, cache, bucket)
    requires forall n :: 0 <= n < |bucket| ==> !IsStale(p.Elt(cache[bucket[n]]), now)
    ensures FirstStale(p, cache, bucket, now).None?
  {
    if bucket != [] {
      assert forall n :: 0 <= n < |bucket| - 1 ==> bucket[1..][n] == bucket[n + 1];
      FirstStaleIsNone(p, cache, bucket[1..], now);
    }
  }

  /** `hanat_session_add`'s insertion, after the duplicate check: allocate a slot
      for `s`, let the stale callback free the victim's slot (if the bucket was
      full and a stale entry was found), then index the new key, overwriting the
      victim's key. Returns the new pool, the new index and the new slot. */
  function Insert(p: Pool<Session>, cache: map<SessionKey, nat>, s: Session, victim: Option<SessionKey>)
    : (r: (Pool<Session>, map<SessionKey, nat>, nat))
    requires TableInvariant(p, cache) && s.key !in cache
    requires victim.Some? ==> victim.value in cache
  {
    var (p1, i) := p.Get(s);
    if victim.Some? then
      (p1.Put(cache[victim.value]), (cache - {victim.value})[s.key := i], i)
    else
      (p1, cache[s.key := i], i)
  }

  /** An insertion keeps the invariant, indexes the new session under its key in a
      slot that was free, removes only the victim, and leaves every other indexed
      session where it was and as it was. */
  lemma InsertSpec(p: Pool<Session>, cache: map<SessionKey, nat>, s: Session, victim: Option<SessionKey>)
    requires TableInvariant(p, cache) && s.key !in cache
    requires victim.Some? ==> victim.value in cache
    ensures var (p2, c2, i) := Insert(p, cache, s, victim);
      && TableInvariant(p2, c2)
      && p.IsFree(i) && s.key in c2 && c2[s.key] == i && p2.Elt(i) == s
      && (victim.Some? ==> victim.value !in c2 && p2.IsFree(cache[victim.value]))
      && (forall k :: k != s.key && (victim.None? || k != victim.value) ==>
            (k in c2 <==> k in cache) && (k in cache ==> c2[k] == cache[k] && p2.Elt(c2[k]) == p.Elt(cache[k])))
  {
    var (p1, i) := p.Get(s);
    var (p2, c2, j) := Insert(p, cache, s, victim);
    assert forall k :: k in cache ==> cache[k] != i;
    if victim.Some? {
      var v := victim.value;
      assert !p1.IsFree(cache[v]);
      forall n: nat | !p2.IsFree(n)
        ensures p2.Elt(n).key in c2 && c2[p2.Elt(n).key] == n
      {
        if n != i {
          assert !p.IsFree(n) && p2.Elt(n) == p.Elt(n);
          assert p.Elt(n).key != v;
        }
      }
    } else {
      forall n: nat | !p2.IsFree(n)
        ensures p2.Elt(n).key in c2 && c2[p2.Elt(n).key] == n
      {
        if n != i {
          assert !p.IsFree(n) && p2.Elt(n) == p.Elt(n);
        }
      }
    }
  }

  /** `hanat_session_delete` on an indexed key: free its slot and unindex it. */
  function Remove(p: Pool<Session>, cache: map<SessionKey, nat>, key: SessionKey): (r: (Pool<Session>, map<SessionKey, nat>))
    requires TableInvariant(p, cache) && key in cache
  {
    (p.Put(cache[key]), cache - {key})
  }

  /** A removal keeps the invariant, frees exactly the key's slot and leaves every
      other indexed session where it was and as it was. */
  lemma RemoveSpec(p: Pool<Session>, cache: map<SessionKey, nat>, key: SessionKey)
    requires TableInvariant(p, cache) && key in cache
    ensures var (p2, c2) := Remove(p, cache, key);
      && TableInvariant(p2, c2) && key !in c2 && p2.IsFree(cache[key])
      && (forall k :: k != key ==> (k in c2 <==> k in cache) && (k in cache ==> c2[k] == cache[k] && p2.Elt(c2[k]) == p.Elt(cache[k])))
  {
    var (p2, c2) := Remove(p, cache, key);
    forall n: nat | !p2.IsFree(n)
      ensures p2.Elt(n).key in c2 && c2[p2.Elt(n).key] == n
    {
      assert n != cache[key] && !p.IsFree(n) && p2.Elt(n) == p.Elt(n);
    }
  }

  /** The session cache: the pool of sessions and the hash index over it. */
  class SessionTable {
    var sessions: Pool<Session>
    var cache: map<SessionKey, nat>

    ghost predicate Valid()
      reads this
    {
      TableInvariant(sessions, cache)
    }

    /** `hanat_db_init`: an empty table. */
    constructor()
      ensures Valid() && sessions == EmptyPool() && cache == map[]
    {
      sessions := EmptyPool();
      cache := map[];
    }

    /** `hanat_session_find`: the slot indexed under `key`, unless that slot is free. */
    function Find(key: SessionKey): (r: Option<nat>)
      reads this
      ensures r.Some? ==> key in cache && cache[key] == r.value && !sessions.IsFree(r.value)
      ensures r.None? ==> key !in cache || sessions.IsFree(cache[key])
    {
      if key !in cache then None
      else if sessions.IsFree(cache[key]) then None
      else Some(cache[key])
    }

    /** Under the invariant the free-slot check in `Find` never fires: a key is
        found exactly when it is indexed, and the slot found holds that key. */
    lemma FindIsIndexLookup(key: SessionKey)
      requires Valid()
      ensures Find(key).Some? <==> key in cache
      ensures Find(key).Some? ==> sessions.Elt(Find(key).value).key == key
    {
    }

    /** `hanat_session_find_ip`: the session of the key a packet carries. */
    function FindIp(fibIndex: U32, p: Ip4Packet): (r: Option<nat>)
      requires L4Readable(p)
      reads this
      ensures r.Some? ==> KeyFromIp(fibIndex, p) in cache && !sessions.IsFree(r.value)
      ensures Valid() ==> (r.Some? <==> KeyFromIp(fibIndex, p) in cache)
      ensures Valid() && r.Some? ==> sessions.Elt(r.value).key == KeyFromIp(fibIndex, p)
    {
      Find(KeyFromIp(fibIndex, p))
    }

    /** `hanat_session_stale_cb` on the indexed entry `k`: if its session is stale,
        free the slot and accept the overwrite. */
    method StaleCallback(k: SessionKey, now: int) returns (reused: bool)
      requires sessions.Valid() && k in cache && !sessions.IsFree(cache[k])
      modifies this
      ensures reused == IsStale(old(sessions).Elt(old(cache)[k]), now)
      ensures cache == old(cache)
      ensures reused ==> sessions == old(sessions).Put(old(cache)[k])
      ensures !reused ==> sessions == old(sessions)
    {
      var i := cache[k];
      if IsStale(sessions.Elt(i), now) {
        sessions := sessions.Put(i);
        reused := true;
      } else {
        reused := false;
      }
    }

    /** The insertion `hanat_session_add` and `hanat_worker_cache_add_incomplete`
        share: `pool_get_zero`, fill the slot, then `add_or_overwrite_stale`, which
        offers the entries of a full bucket to the stale callback in order and
        overwrites the first one it accepts. */
    method InsertWithStaleReuse(s: Session, now: int, fullBucket: seq<SessionKey>) returns (i: nat)
      requires Valid() && s.key !in cache
      requires Indexed(sessions, cache, fullBucket)
      modifies this
      ensures Valid()
      ensures (sessions, cache, i)
           == Insert(old(sessions), old(cache), s, FirstStale(old(sessions), old(cache), fullBucket, now))
    {
      ghost var p0, c0 := sessions, cache;
      ghost var victim := FirstStale(p0, c0, fullBucket, now);
      var p1, slot := sessions.Get(s).0, sessions.Get(s).1;
      sessions := p1;
      assert forall k :: k in c0 ==> c0[k] != slot;
      var j := 0;
      var evicted := false;
      while j < |fullBucket| && !evicted
        invariant 0 <= j <= |fullBucket|
        invariant !evicted ==> sessions == p1 && cache == c0
        invariant !evicted ==> forall n :: 0 <= n < j ==> !IsStale(p0.Elt(c0[fullBucket[n]]), now)
        invariant evicted ==> victim.Some? && sessions == p1.Put(c0[victim.value]) && cache == c0 - {victim.value}
        decreases |fullBucket| - j, if evicted then 0 else 1
      {
        var k := fullBucket[j];
        assert p1.Elt(c0[k]) == p0.Elt(c0[k]);
        var reused := StaleCallback(k, now);
        if reused {
          FirstStaleIs(p0, c0, fullBucket, now, j);
          cache := cache - {k};
          evicted := true;
        } else {
          j := j + 1;
        }
      }
      if !evicted {
        FirstStaleIsNone(p0, c0, fullBucket, now);
      }
      cache := cache[s.key := slot];
      i := slot;
      InsertSpec(p0, c0, s, victim);
    }

    /** `hanat_session_add`: fails (`None`) when the key already has a session;
        otherwise stores key and entry in a new slot and indexes it. */
    method Add(key: SessionKey, e: SessionEntry, now: int, fullBucket: seq<SessionKey>) returns (r: Option<nat>)
      requires Valid()
      requires Indexed(sessions, cache, fullBucket)
      modifies this
      ensures Valid()
      ensures old(Find(key)).Some? ==> r.None? && sessions == old(sessions) && cache == old(cache)
      ensures old(Find(key)).None? ==>
                r.Some? && (sessions, cache, r.value) == Insert(old(sessions), old(cache), Session(key, e), FirstStale(old(sessions), old(cache), fullBucket, now))
    {
      if Find(key).Some? {
        return None;
      }
      var i := InsertWithStaleReuse(Session(key, e), now, fullBucket);
      r := Some(i);
    }

    /** `hanat_worker_cache_add_incomplete`: a packet arrives before its session is
        complete. An existing session keeps only this newest packet; otherwise a
        zeroed session holding the packet and the tunnel flag is inserted. */
    method AddIncomplete(fibIndex: U32, p: Ip4Packet, bi: U32, tunnel: bool, now: int, fullBucket: seq<SessionKey>)
      returns (r: nat)
      requires Valid() && L4Readable(p)
      requires Indexed(sessions, cache, fullBucket)
      modifies this
      ensures Valid()
      ensures var key := KeyFromIp(fibIndex, p);
        && (old(Find(key)).Some? ==>
              r == old(Find(key)).value && cache == old(cache)
              && sessions == old(sessions).Set(r, Session(key, old(sessions).Elt(r).entry.(buffer := bi))))
        && (old(Find(key)).None? ==>
              (sessions, cache, r) == Insert(old(sessions), old(cache),
                                             Session(key, ZERO_ENTRY.(buffer := bi, tunnel := tunnel)),
                                             FirstStale(old(sessions), old(cache), fullBucket, now)))
    {
      var key := KeyFromIp(fibIndex, p);
      var found := Find(key);
      if found.Some? {
        r := found.value;
        sessions := sessions.Set(r, Session(key, sessions.Elt(r).entry.(buffer := bi)));
        forall n: nat | !sessions.IsFree(n)
          ensures sessions.Elt(n).key in cache && cache[sessions.Elt(n).key] == n
        {
          if n != r { assert !old(sessions).IsFree(n) && sessions.Elt(n) == old(sessions).Elt(n); }
        }
        return;
      }
      r := InsertWithStaleReuse(Session(key, ZERO_ENTRY.(buffer := bi, tunnel := tunnel)), now, fullBucket);
    }

    /** `hanat_session_delete`: an unindexed key is reported and ignored; otherwise
        the slot is freed and the key unindexed. */
    method Delete(key: SessionKey)
      requires Valid()
      modifies this
      ensures Valid() && key !in cache
      ensures key in old(cache) ==> (sessions, cache) == Remove(old(sessions), old(cache), key)
      ensures key !in old(cache) ==> sessions == old(sessions) && cache == old(cache)
    {
      if key !in cache {
        return;
      }
      RemoveSpec(sessions, cache, key);
      sessions := sessions.Put(cache[key]);
      cache := cache - {key};
    }

    /** A write to the entry of the live session in slot `i`, through the pointer
        the caller holds; its key is unchanged. */
    method SetEntry(i: nat, e: SessionEntry)
      requires Valid() && !sessions.IsFree(i)
      modifies this
      ensures Valid()
      ensures sessions == old(sessions).Set(i, Session(old(sessions).Elt(i).key, e)) && cache == old(cache)
    {
      sessions := sessions.Set(i, Session(sessions.Elt(i).key, e));
      forall n: nat | !sessions.IsFree(n)
        ensures sessions.Elt(n).key in cache && cache[sessions.Elt(n).key] == n
      {
        if n != i { assert !old(sessions).IsFree(n) && sessions.Elt(n) == old(sessions).Elt(n); }
      }
    }
  }

  /** A key has at most one live session. */
  lemma OneSessionPerKey(p: Pool<Session>, cache: map<SessionKey, nat>, i: nat, j: nat)
    requires TableInvariant(p, cache)
    requires !p.IsFree(i) && !p.IsFree(j) && p.Elt(i).key == p.Elt(j).key
    ensures i == j
  {
  }
}
