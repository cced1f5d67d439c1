/**
 * Incremental checksum deltas of the HA-NAT worker (hanat_worker.c).
 *
 * A session precomputes, once, how much its address and port rewrites change
 * the IPv4 header checksum and the TCP/UDP/ICMP checksum, so that the
 * forwarding path can repair every packet's checksums in constant time
 * (RFC 1624, section 3, eqn. 3). The accumulator is a 64-bit `ip_csum_t`
 * updated with ones'-complement add and subtract (end-around carry and
 * borrow, RFC 1071, section 1); ones'-complement arithmetic on 64 bits is
 * arithmetic modulo 2^64 - 1, which 0xFFFF divides, so it is also correct for
 * the final 16-bit checksum.
 */
module Checksum {
  import opened Machine

  /** 2^64 - 1: the modulus of ones'-complement arithmetic on an `ip_csum_t`. */
  const ONES64: int := 0xFFFF_FFFF_FFFF_FFFF
  /** 2^16 - 1: the modulus of the 16-bit Internet checksum. */
  const ONES16: int := 0xFFFF

  /** A multiple of 2^64 - 1, the 64-bit ones'-complement zero. */
  ghost function Ones64Multiple(k: int): int
  {
    ONES64 * k
  }

  /** `a` and `b` are the same ones'-complement number on 64 bits (they differ by a multiple of 2^64 - 1). */
  ghost predicate Congruent64(a: int, b: int)
  {
    exists k :: a - b == Ones64Multiple(k)
  }

  /** A multiple of 0xFFFF, the 16-bit ones'-complement zero. */
  ghost function Ones16Multiple(k: int): int
  {
    0xFFFF * k
  }

  /** `a` and `b` are the same 16-bit ones'-complement number (they differ by a multiple of 0xFFFF). */
  ghost predicate Congruent16(a: int, b: int)
  {
    exists k :: a - b == Ones16Multiple(k)
  }

  /** Which header fields a session rewrites (`hanat_instructions_t`). */
  datatype Instruction = SourceAddress | DestinationAddress | SourcePort | DestinationPort

  /** `ip_csum_add_even`: 64-bit add, the carry out of bit 63 folded back into bit 0. */
  function AddEven(c: U64, x: U64): (d: U64)
    ensures d == c + x || d == c + x - ONES64
  {
    var s := (c + x) % TWO64;
    if s < x then s + 1 else s
  }

  /** `ip_csum_sub_even`: 64-bit subtract, the borrow out of bit 63 taken from bit 0. */
  function SubEven(c: U64, x: U64): (d: U64)
    ensures d == c - x || d == c - x + ONES64
  {
    var s := (c - x) % TWO64;
    if s > c then s - 1 else s
  }

  /** The change the enabled address rewrites make to the sum of the header, as a plain integer. */
  function AddressDelta(instructions: set<Instruction>, preSa: U32, postSa: U32, preDa: U32, postDa: U32): int
  {
    (if SourceAddress in instructions then postSa - preSa else 0)
    + (if DestinationAddress in instructions then postDa - preDa else 0)
  }

  /** The change the enabled port rewrites make to the sum of the transport header. */
  function PortDelta(instructions: set<Instruction>, preSp: U16, postSp: U16, preDp: U16, postDp: U16): int
  {
    (if SourcePort in instructions then postSp - preSp else 0)
    + (if DestinationPort in instructions then postDp - preDp else 0)
  }

  /** The `ip_csum_t` accumulator of `l3_checksum_delta` before it is returned:
      ones'-complement equal to the address delta. */
  function L3Sum(instructions: set<Instruction>, preSa: U32, postSa: U32, preDa: U32, postDa: U32): (c: U64)
    ensures Congruent64(c, AddressDelta(instructions, preSa, postSa, preDa, postDa))
  {
    var c0 := 0;
    var c1 := if SourceAddress in instructions then SubEven(AddEven(c0, postSa), preSa) else c0;
    var c2 := if DestinationAddress in instructions then AddEven(SubEven(c1, preDa), postDa) else c1;
    FewCarries64(c2, AddressDelta(instructions, preSa, postSa, preDa, postDa));
    c2
  }

  /** `l3_checksum_delta`: the accumulator returned as a C `int`, i.e. truncated to 32 bits. */
  function L3Delta(instructions: set<Instruction>, preSa: U32, postSa: U32, preDa: U32, postDa: U32): (r: I32)
    ensures SourceAddress !in instructions && DestinationAddress !in instructions ==> r == 0
  {
    Int32(L3Sum(instructions, preSa, postSa, preDa, postDa))
  }

  /** The `ip_csum_t` accumulator of `l4_checksum_delta` before it is returned:
      ones'-complement equal to the seed plus the port delta. */
  function L4Sum(instructions: set<Instruction>, seed: U64, preSp: U16, postSp: U16, preDp: U16, postDp: U16): (c: U64)
    ensures Congruent64(c, seed + PortDelta(instructions, preSp, postSp, preDp, postDp))
    ensures SourcePort !in instructions && DestinationPort !in instructions ==> c == seed
  {
    var c1 := if SourcePort in instructions then SubEven(AddEven(seed, postSp), preSp) else seed;
    var c2 := if DestinationPort in instructions then SubEven(AddEven(c1, postDp), preDp) else c1;
    FewCarries64(c2, seed + PortDelta(instructions, preSp, postSp, preDp, postDp));
    c2
  }

  /** `l4_checksum_delta`: the accumulator returned as a C `int`. */
  function L4Delta(instructions: set<Instruction>, seed: U64, preSp: U16, postSp: U16, preDp: U16, postDp: U16): (r: I32)
    ensures SourcePort !in instructions && DestinationPort !in instructions ==> r == Int32(seed)
  {
    Int32(L4Sum(instructions, seed, preSp, postSp, preDp, postDp))
  }

  /* The reference: the 16-bit Internet checksum sum of RFC 1071, section 1,
     over the header as a sequence of 16-bit words. */

  /** Ones'-complement addition of two 16-bit words (end-around carry). */
  function OnesAdd16(a: U16, b: U16): (r: U16)
    ensures r == a + b || r == a + b - ONES16
  {
    if a + b > 0xFFFF then a + b - ONES16 else a + b
  }

  /** The ones'-complement sum of a sequence of 16-bit words; the checksum field holds its complement. */
  function OnesSum16(ws: seq<U16>): U16
  {
    if ws == [] then 0 else OnesAdd16(OnesSum16(ws[..|ws| - 1]), ws[|ws| - 1])
  }

  /** The plain integer sum of a sequence of words. */
  function WordSum(ws: seq<U16>): int
  {
    if ws == [] then 0 else WordSum(ws[..|ws| - 1]) + ws[|ws| - 1]
  }

  /** Folding with end-around carry computes the integer sum modulo 0xFFFF. */
  lemma {:induction false} OnesSum16IsWordSum(ws: seq<U16>)
    ensures Congruent16(OnesSum16(ws), WordSum(ws))
  {
    if ws == [] {
      Multiple16(OnesSum16(ws), WordSum(ws), 0);
    } else {
      var init := ws[..|ws| - 1];
      OnesSum16IsWordSum(init);
      var k :| OnesSum16(init) - WordSum(init) == Ones16Multiple(k);
      if OnesSum16(ws) == OnesSum16(init) + ws[|ws| - 1] {
        Multiple16(OnesSum16(ws), WordSum(ws), k);
      } else {
        Multiple16(OnesSum16(ws), WordSum(ws), k - 1);
      }
    }
  }

  /** Overwriting one word changes the integer sum by the difference of the words. */
  lemma {:induction false} WordSumUpdate(ws: seq<U16>, i: nat, w: U16)
    requires i < |ws|
    ensures WordSum(ws[i := w]) == WordSum(ws) - ws[i] + w
  {
    var n := |ws| - 1;
    if i < n {
      WordSumUpdate(ws[..n], i, w);
      assert ws[i := w][..n] == ws[..n][i := w];
    } else {
      assert ws[i := w][..n] == ws[..n];
    }
  }

  /** The 32-bit field held by words `i` and `i + 1`, loaded as the little-endian host loads it
      (least significant word first). */
  function Field32(ws: seq<U16>, i: nat): U32
    requires i + 1 < |ws|
  {
    ws[i] + (ws[i + 1] as int) * 0x1_0000
  }

  /** `ws` with the 32-bit field at words `i`, `i + 1` replaced by `v`. */
  function Put32(ws: seq<U16>, i: nat, v: U32): (r: seq<U16>)
    requires i + 1 < |ws|
    ensures |r| == |ws| && Field32(r, i) == v
  {
    ws[i := v % 0x1_0000][i + 1 := v / 0x1_0000]
  }

  /** Two numbers that differ by a multiple of 2^64 - 1 are the same 64-bit ones'-complement number. */
  lemma Multiple64(a: int, b: int, k: int)
    requires a - b == ONES64 * k
    ensures Congruent64(a, b)
  {
    assert a - b == Ones64Multiple(k);
  }

  /** Up to two end-around carries or borrows in either direction leave a number congruent. */
  lemma FewCarries64(a: int, b: int)
    requires a - b == -2 * ONES64 || a - b == -ONES64 || a - b == 0 || a - b == ONES64 || a - b == 2 * ONES64
    ensures Congruent64(a, b)
  {
    if a - b == -2 * ONES64 {
      Multiple64(a, b, -2);
    } else if a - b == -ONES64 {
      Multiple64(a, b, -1);
    } else if a - b == 0 {
      Multiple64(a, b, 0);
    } else if a - b == ONES64 {
      Multiple64(a, b, 1);
    } else {
      Multiple64(a, b, 2);
    }
  }

  /** Two numbers that differ by a multiple of 0xFFFF are the same 16-bit ones'-complement number. */
  lemma Multiple16(a: int, b: int, k: int)
    requires a - b == ONES16 * k
    ensures Congruent16(a, b)
  {
    assert a - b == Ones16Multiple(k);
  }

  /** Ones'-complement equality modulo 0xFFFF is transitive. */
  lemma Trans16(a: int, b: int, c: int)
    requires Congruent16(a, b) && Congruent16(b, c)
    ensures Congruent16(a, c)
  {
    var k1 :| a - b == Ones16Multiple(k1);
    var k2 :| b - c == Ones16Multiple(k2);
    Multiple16(a, c, k1 + k2);
  }

  /** Adding the same number to both sides keeps ones'-complement equality modulo 0xFFFF. */
  lemma Shift16(a: int, b: int, x: int)
    requires Congruent16(a, b)
    ensures Congruent16(a + x, b + x)
  {
    var k :| a - b == Ones16Multiple(k);
    Multiple16(a + x, b + x, k);
  }

  /** Replacing a 32-bit field changes the header sum by new value minus old value, modulo 0xFFFF
      (its two halves weigh 2^16 = 1 and 1). */
  lemma Put32Sum(ws: seq<U16>, i: nat, v: U32)
    requires i + 1 < |ws|
    ensures Congruent16(WordSum(Put32(ws, i, v)), WordSum(ws) + v - Field32(ws, i))
  {
    var lo: int, hi: int := v % 0x1_0000, v / 0x1_0000;
    var d: int := (lo + hi) - (ws[i] as int + ws[i + 1]);
    assert WordSum(Put32(ws, i, v)) == WordSum(ws) + d by {
      WordSumUpdate(ws, i, lo);
      WordSumUpdate(ws[i := lo], i + 1, hi);
    }
    assert v == lo + hi * 0x1_0000;
    Multiple16(WordSum(Put32(ws, i, v)), WordSum(ws) + v - Field32(ws, i), ws[i + 1] - hi);
  }

  /** Word offsets of the source and destination address in an IPv4 header (RFC 791) and in the
      TCP/UDP pseudo-header (RFC 793, section 3.1), and of the ports in a TCP or UDP header. */
  const IP4_SA_WORD: nat := 6
  const IP4_DA_WORD: nat := 8
  const PSEUDO_SA_WORD: nat := 0
  const PSEUDO_DA_WORD: nat := 2
  const SP_WORD: nat := 0
  const DP_WORD: nat := 1

  /** Rewrites the 32-bit field at word `i` when `enabled`. */
  function PutIf(ws: seq<U16>, enabled: bool, i: nat, v: U32): (r: seq<U16>)
    requires i + 1 < |ws|
    ensures |r| == |ws|
    ensures enabled ==> Field32(r, i) == v
    ensures !enabled ==> r == ws
  {
    if enabled then Put32(ws, i, v) else ws
  }

  /** The field's change, or nothing when the rewrite is disabled. */
  function FieldChange(enabled: bool, pre: U32, post: U32): int
  {
    if enabled then post - pre else 0
  }

  lemma PutIfSumEnabled(ws: seq<U16>, i: nat, v: U32)
    requires i + 1 < |ws|
    ensures Congruent16(WordSum(PutIf(ws, true, i, v)), WordSum(ws) + FieldChange(true, Field32(ws, i), v))
  {
    Put32Sum(ws, i, v);
  }

  lemma PutIfSumDisabled(ws: seq<U16>, i: nat, v: U32)
    requires i + 1 < |ws|
    ensures Congruent16(WordSum(PutIf(ws, false, i, v)), WordSum(ws) + FieldChange(false, Field32(ws, i), v))
  {
    Multiple16(WordSum(PutIf(ws, false, i, v)), WordSum(ws) + FieldChange(false, Field32(ws, i), v), 0);
  }

  /** A conditional rewrite changes the header sum by the field's change, modulo 0xFFFF. */
  lemma PutIfSum(ws: seq<U16>, enabled: bool, i: nat, v: U32)
    requires i + 1 < |ws|
    ensures Congruent16(WordSum(PutIf(ws, enabled, i, v)), WordSum(ws) + FieldChange(enabled, Field32(ws, i), v))
  {
    if enabled { PutIfSumEnabled(ws, i, v); } else { PutIfSumDisabled(ws, i, v); }
  }

  lemma PutIfOther(ws: seq<U16>, enabled: bool, i: nat, v: U32, j: nat)
    requires i + 1 < |ws| && j + 1 < |ws| && (j + 1 < i || i + 1 < j)
    ensures Field32(PutIf(ws, enabled, i, v), j) == Field32(ws, j)
  {
  }

  /** Two non-overlapping 32-bit address fields, the source before the destination. */
  predicate AddressLayout(ws: seq<U16>, sa: nat, da: nat)
  {
    sa + 1 < da && da + 1 < |ws|
  }

  /** The words after the session's enabled address rewrites. */
  function RewriteAddresses(ws: seq<U16>, sa: nat, da: nat, instructions: set<Instruction>, postSa: U32, postDa: U32): (r: seq<U16>)
    requires AddressLayout(ws, sa, da)
    ensures |r| == |ws|
  {
    PutIf(PutIf(ws, SourceAddress in instructions, sa, postSa), DestinationAddress in instructions, da, postDa)
  }

  /** Two congruent steps make a congruent whole. */
  lemma Link16(w: int, w1: int, w2: int, d1: int, d2: int)
    requires Congruent16(w1, w + d1) && Congruent16(w2, w1 + d2)
    ensures Congruent16(w2, w + (d1 + d2))
  {
    var k1 :| w1 - (w + d1) == Ones16Multiple(k1);
    var k2 :| w2 - (w1 + d2) == Ones16Multiple(k2);
    Multiple16(w2, w + (d1 + d2), k1 + k2);
  }

  /** The address rewrites change the sum of the words by the address delta, modulo 0xFFFF. */
  lemma RewriteAddressesWordSum(ws: seq<U16>, sa: nat, da: nat, instructions: set<Instruction>, postSa: U32, postDa: U32)
    requires AddressLayout(ws, sa, da)
    ensures Congruent16(WordSum(RewriteAddresses(ws, sa, da, instructions, postSa, postDa)),
                        WordSum(ws) + AddressDelta(instructions, Field32(ws, sa), postSa, Field32(ws, da), postDa))
  {
    var srcOn, dstOn := SourceAddress in instructions, DestinationAddress in instructions;
    var ws1 := PutIf(ws, srcOn, sa, postSa);
    var ws2 := PutIf(ws1, dstOn, da, postDa);
    PutIfOther(ws, srcOn, sa, postSa, da);
    PutIfSum(ws, srcOn, sa, postSa);
    PutIfSum(ws1, dstOn, da, postDa);
    Link16(WordSum(ws), WordSum(ws1), WordSum(ws2),
           FieldChange(srcOn, Field32(ws, sa), postSa), FieldChange(dstOn, Field32(ws, da), postDa));
  }

  /** Ones'-complement equality on 64 bits implies it on 16 bits, since 0xFFFF divides 2^64 - 1. */
  lemma Ones64To16(a: int, b: int)
    requires Congruent64(a, b)
    ensures Congruent16(a, b)
  {
    var q :| a - b == Ones64Multiple(q);
    assert a - b == ONES16 * (q * 0x1_0001_0001_0001);
    Multiple16(a, b, q * 0x1_0001_0001_0001);
  }

  /** A checksum sum plus a delta that is congruent to the change of the words is the new checksum sum. */
  lemma Repaired16(o: int, o2: int, w: int, w2: int, delta: int, c: int)
    requires Congruent16(o, w) && Congruent16(o2, w2)
    requires Congruent16(w2, w + delta) && Congruent16(c, delta)
    ensures Congruent16(o2, o + c)
  {
    var k1 :| o - w == Ones16Multiple(k1);
    var k2 :| o2 - w2 == Ones16Multiple(k2);
    var k3 :| w2 - (w + delta) == Ones16Multiple(k3);
    var k4 :| c - delta == Ones16Multiple(k4);
    Multiple16(o2, o + c, k2 + k3 - k1 - k4);
  }

  /** The IPv4 header after the session's address rewrites. */
  function TranslateAddresses(h: seq<U16>, instructions: set<Instruction>, postSa: U32, postDa: U32): (r: seq<U16>)
    requires |h| >= 10
    ensures |r| == |h|
  {
    RewriteAddresses(h, IP4_SA_WORD, IP4_DA_WORD, instructions, postSa, postDa)
  }

  /** The L3 accumulator repairs the IPv4 header checksum (RFC 1624, section 3): the ones'-complement
      sum over the original header plus the accumulator is the sum over the translated header, for any
      addresses, end-around carries included. */
  lemma L3SumRepairsHeader(h: seq<U16>, instructions: set<Instruction>, postSa: U32, postDa: U32)
    requires |h| >= 10
    ensures Congruent16(OnesSum16(TranslateAddresses(h, instructions, postSa, postDa)),
                        OnesSum16(h) + L3Sum(instructions, Field32(h, IP4_SA_WORD), postSa, Field32(h, IP4_DA_WORD), postDa))
  {
    var h2 := RewriteAddresses(h, IP4_SA_WORD, IP4_DA_WORD, instructions, postSa, postDa);
    var delta := AddressDelta(instructions, Field32(h, IP4_SA_WORD), postSa, Field32(h, IP4_DA_WORD), postDa);
    var c := L3Sum(instructions, Field32(h, IP4_SA_WORD), postSa, Field32(h, IP4_DA_WORD), postDa);
    assert Congruent16(WordSum(h2), WordSum(h) + delta) by {
      RewriteAddressesWordSum(h, IP4_SA_WORD, IP4_DA_WORD, instructions, postSa, postDa);
    }
    assert Congruent16(c, delta) by { Ones64To16(c, delta); }
    OnesSum16IsWordSum(h);
    OnesSum16IsWordSum(h2);
    Repaired16(OnesSum16(h), OnesSum16(h2), WordSum(h), WordSum(h2), delta, c);
  }

  /* Returning the accumulator as a C `int` keeps its low 32 bits; storing that `int` back into an
     `ip_csum_t` sign-extends it. */

  /** Truncation keeps the 16-bit ones'-complement value when the accumulator's high half is all
      zeros or all ones (0xFFFF_FFFF is a multiple of 0xFFFF). */
  lemma TruncationKeepsOnes16(v: U64)
    requires v < TWO32 || v >= TWO64 - TWO32
    ensures Congruent16(SignExtend(Int32(v)), v)
  {
    if v < 0x8000_0000 || v >= TWO64 - 0x8000_0000 {
      Multiple16(SignExtend(Int32(v)), v, 0);
    } else if v < TWO32 {
      assert Int32(v) == v - TWO32;
      Multiple16(SignExtend(Int32(v)), v, 0x1_0000_0000 * 0x1_0001);
    } else {
      assert v % TWO32 == v - (TWO64 - TWO32);
      assert Int32(v) == v - (TWO64 - TWO32);
      Multiple16(SignExtend(Int32(v)), v, -0x1_0000_0000 * 0x1_0001);
    }
  }

  /** With at most one address rewritten, the accumulator's high half is all zeros or all ones. */
  lemma L3SumOneAddressRange(instructions: set<Instruction>, preSa: U32, postSa: U32, preDa: U32, postDa: U32)
    requires SourceAddress !in instructions || DestinationAddress !in instructions
    ensures var c := L3Sum(instructions, preSa, postSa, preDa, postDa); c < TWO32 || c >= TWO64 - TWO32
  {
    if SourceAddress in instructions {
      assert AddEven(0, postSa) == postSa;
    } else if DestinationAddress in instructions {
      var c1 := SubEven(0, preDa);
      assert c1 == 0 || c1 == ONES64 - preDa;
    }
  }

  /** With at most one address rewritten, the delta returned as an `int` is still exact as a 16-bit
      ones'-complement number. */
  lemma L3DeltaOneAddress(instructions: set<Instruction>, preSa: U32, postSa: U32, preDa: U32, postDa: U32)
    requires SourceAddress !in instructions || DestinationAddress !in instructions
    ensures Congruent16(SignExtend(L3Delta(instructions, preSa, postSa, preDa, postDa)),
                        AddressDelta(instructions, preSa, postSa, preDa, postDa))
  {
    var c := L3Sum(instructions, preSa, postSa, preDa, postDa);
    var delta := AddressDelta(instructions, preSa, postSa, preDa, postDa);
    L3SumOneAddressRange(instructions, preSa, postSa, preDa, postDa);
    TruncationKeepsOnes16(c);
    Ones64To16(c, delta);
    Trans16(SignExtend(Int32(c)), c, delta);
  }

  /** With at most one address rewritten, the session's stored L3 delta repairs the header checksum. */
  lemma L3DeltaRepairsHeader(h: seq<U16>, instructions: set<Instruction>, postSa: U32, postDa: U32)
    requires |h| >= 10
    requires SourceAddress !in instructions || DestinationAddress !in instructions
    ensures Congruent16(OnesSum16(TranslateAddresses(h, instructions, postSa, postDa)),
                        OnesSum16(h) + SignExtend(L3Delta(instructions, Field32(h, IP4_SA_WORD), postSa, Field32(h, IP4_DA_WORD), postDa)))
  {
    var preSa, preDa := Field32(h, IP4_SA_WORD), Field32(h, IP4_DA_WORD);
    var h2 := RewriteAddresses(h, IP4_SA_WORD, IP4_DA_WORD, instructions, postSa, postDa);
    var delta := AddressDelta(instructions, preSa, postSa, preDa, postDa);
    var s := SignExtend(L3Delta(instructions, preSa, postSa, preDa, postDa));
    assert Congruent16(WordSum(h2), WordSum(h) + delta) by {
      RewriteAddressesWordSum(h, IP4_SA_WORD, IP4_DA_WORD, instructions, postSa, postDa);
    }
    assert Congruent16(s, delta) by { L3DeltaOneAddress(instructions, preSa, postSa, preDa, postDa); }
    OnesSum16IsWordSum(h);
    OnesSum16IsWordSum(h2);
    Repaired16(OnesSum16(h), OnesSum16(h2), WordSum(h), WordSum(h2), delta,
               SignExtend(L3Delta(instructions, preSa, postSa, preDa, postDa)));
  }

  /** With both addresses rewritten the truncation can drop an end-around carry: rewriting source
      0.0.0.0 to 255.255.255.255 and destination 0.0.0.0 to 1.0.0.0 (as loaded) changes the header
      sum by 2^32, which is 1 in 16-bit ones'-complement, yet the returned delta is 0. */
  lemma L3DeltaLosesCarry()
    ensures L3Delta({SourceAddress, DestinationAddress}, 0, 0xFFFF_FFFF, 0, 1) == 0
    ensures !Congruent16(0, AddressDelta({SourceAddress, DestinationAddress}, 0, 0xFFFF_FFFF, 0, 1))
  {
    assert L3Sum({SourceAddress, DestinationAddress}, 0, 0xFFFF_FFFF, 0, 1) == TWO32;
  }

  /** The L4 seed passes through the port rewrites: a seeded accumulator is the seed plus the
      accumulator of a zero seed. So the TCP/UDP delta (seeded with the L3 delta) and the ICMP delta
      (seeded with zero) differ exactly by the L3 delta. */
  lemma L4SumSeed(instructions: set<Instruction>, seed: U64, preSp: U16, postSp: U16, preDp: U16, postDp: U16)
    ensures Congruent64(L4Sum(instructions, seed, preSp, postSp, preDp, postDp),
                        seed + L4Sum(instructions, 0, preSp, postSp, preDp, postDp))
  {
    var d := PortDelta(instructions, preSp, postSp, preDp, postDp);
    var a, b := L4Sum(instructions, seed, preSp, postSp, preDp, postDp), L4Sum(instructions, 0, preSp, postSp, preDp, postDp);
    var q1 :| a - (seed + d) == Ones64Multiple(q1);
    var q2 :| b - d == Ones64Multiple(q2);
    Multiple64(a, seed + b, q1 - q2);
  }

  /** Rewrites the 16-bit word at `i` when `enabled`. */
  function PutWordIf(ws: seq<U16>, enabled: bool, i: nat, w: U16): (r: seq<U16>)
    requires i < |ws|
    ensures |r| == |ws|
  {
    if enabled then ws[i := w] else ws
  }

  /** A TCP or UDP header after the session's enabled port rewrites. */
  function TranslatePorts(t: seq<U16>, instructions: set<Instruction>, postSp: U16, postDp: U16): (r: seq<U16>)
    requires |t| >= 2
    ensures |r| == |t|
  {
    PutWordIf(PutWordIf(t, SourcePort in instructions, SP_WORD, postSp), DestinationPort in instructions, DP_WORD, postDp)
  }

  /** The port rewrites change the sum of the words by exactly the port delta. */
  lemma TranslatePortsWordSum(t: seq<U16>, instructions: set<Instruction>, postSp: U16, postDp: U16)
    requires |t| >= 2
    ensures WordSum(TranslatePorts(t, instructions, postSp, postDp))
         == WordSum(t) + PortDelta(instructions, t[SP_WORD], postSp, t[DP_WORD], postDp)
  {
    var t1 := PutWordIf(t, SourcePort in instructions, SP_WORD, postSp);
    if SourcePort in instructions {
      WordSumUpdate(t, SP_WORD, postSp);
    }
    if DestinationPort in instructions {
      WordSumUpdate(t1, DP_WORD, postDp);
    }
  }

  /** The integer sum of a concatenation is the sum of the sums. */
  lemma {:induction false} WordSumConcat(a: seq<U16>, b: seq<U16>)
    ensures WordSum(a + b) == WordSum(a) + WordSum(b)
  {
    if b == [] {
      assert a + b == a;
    } else {
      var n := |b| - 1;
      WordSumConcat(a, b[..n]);
      assert (a + b)[..|a + b| - 1] == a + b[..n];
    }
  }

  /** Any delta congruent to the address delta plus the port delta repairs the TCP/UDP checksum,
      which covers the pseudo-header (with both addresses) and the segment (with both ports):
      RFC 793, section 3.1. */
  lemma SegmentRepairedBy(pseudo: seq<U16>, t: seq<U16>, instructions: set<Instruction>,
                          postSa: U32, postDa: U32, postSp: U16, postDp: U16, c: int)
    requires AddressLayout(pseudo, PSEUDO_SA_WORD, PSEUDO_DA_WORD) && |t| >= 2
    requires Congruent16(c, AddressDelta(instructions, Field32(pseudo, PSEUDO_SA_WORD), postSa, Field32(pseudo, PSEUDO_DA_WORD), postDa)
                            + PortDelta(instructions, t[SP_WORD], postSp, t[DP_WORD], postDp))
    ensures Congruent16(
      OnesSum16(RewriteAddresses(pseudo, PSEUDO_SA_WORD, PSEUDO_DA_WORD, instructions, postSa, postDa)
                + TranslatePorts(t, instructions, postSp, postDp)),
      OnesSum16(pseudo + t) + c)
  {
    var p2 := RewriteAddresses(pseudo, PSEUDO_SA_WORD, PSEUDO_DA_WORD, instructions, postSa, postDa);
    var t2 := TranslatePorts(t, instructions, postSp, postDp);
    var ad := AddressDelta(instructions, Field32(pseudo, PSEUDO_SA_WORD), postSa, Field32(pseudo, PSEUDO_DA_WORD), postDa);
    var pd := PortDelta(instructions, t[SP_WORD], postSp, t[DP_WORD], postDp);
    var wp, wp2, wt, wt2 := WordSum(pseudo), WordSum(p2), WordSum(t), WordSum(t2);
    assert Congruent16(wp2, wp + ad) by {
      RewriteAddressesWordSum(pseudo, PSEUDO_SA_WORD, PSEUDO_DA_WORD, instructions, postSa, postDa);
    }
    assert Congruent16(wt2, wt + pd) by {
      TranslatePortsWordSum(t, instructions, postSp, postDp);
      Multiple16(wt2, wt + pd, 0);
    }
    assert WordSum(pseudo + t) == wp + wt && WordSum(p2 + t2) == wp2 + wt2 by {
      WordSumConcat(pseudo, t);
      WordSumConcat(p2, t2);
    }
    assert Congruent16(wp2 + wt2, (wp + wt) + (ad + pd)) by {
      Shift16(wp2, wp + ad, wt);
      Shift16(wt2, wt + pd, wp2);
      Link16(wp + wt, wp2 + wt, wp2 + wt2, ad, pd);
    }
    OnesSum16IsWordSum(pseudo + t);
    OnesSum16IsWordSum(p2 + t2);
    Repaired16(OnesSum16(pseudo + t), OnesSum16(p2 + t2), WordSum(pseudo + t), WordSum(p2 + t2), ad + pd, c);
  }

  /** The L4 accumulator seeded with the L3 accumulator repairs the TCP/UDP checksum over
      pseudo-header and segment, for any addresses and ports. */
  lemma L4SumRepairsSegment(pseudo: seq<U16>, t: seq<U16>, instructions: set<Instruction>,
                            postSa: U32, postDa: U32, postSp: U16, postDp: U16)
    requires AddressLayout(pseudo, PSEUDO_SA_WORD, PSEUDO_DA_WORD) && |t| >= 2
    ensures Congruent16(
      OnesSum16(RewriteAddresses(pseudo, PSEUDO_SA_WORD, PSEUDO_DA_WORD, instructions, postSa, postDa)
                + TranslatePorts(t, instructions, postSp, postDp)),
      OnesSum16(pseudo + t)
      + L4Sum(instructions, L3Sum(instructions, Field32(pseudo, PSEUDO_SA_WORD), postSa, Field32(pseudo, PSEUDO_DA_WORD), postDa),
              t[SP_WORD], postSp, t[DP_WORD], postDp))
  {
    var ad := AddressDelta(instructions, Field32(pseudo, PSEUDO_SA_WORD), postSa, Field32(pseudo, PSEUDO_DA_WORD), postDa);
    var pd := PortDelta(instructions, t[SP_WORD], postSp, t[DP_WORD], postDp);
    var c3 := L3Sum(instructions, Field32(pseudo, PSEUDO_SA_WORD), postSa, Field32(pseudo, PSEUDO_DA_WORD), postDa);
    var c4 := L4Sum(instructions, c3, t[SP_WORD], postSp, t[DP_WORD], postDp);
    assert Congruent16(c4, ad + pd) by {
      Ones64To16(c3, ad);
      Ones64To16(c4, c3 + pd);
      Shift16(c3, ad, pd);
      Trans16(c4, c3 + pd, ad + pd);
    }
    SegmentRepairedBy(pseudo, t, instructions, postSa, postDa, postSp, postDp, c4);
  }

  /** The accumulator is within `bound` of a ones'-complement zero: below `bound`, or at least
      2^64 - `bound`, where all ones is the other zero. */
  predicate NearZero(c: U64, bound: int)
  {
    c < bound || c >= TWO64 - bound
  }

  /** Adding a 16-bit word with end-around carry moves the accumulator at most 2^16 further from zero. */
  lemma AddEvenNearZero(c: U64, x: U16, bound: int)
    requires NearZero(c, bound) && 0x1_0000 <= bound <= TWO32
    ensures NearZero(AddEven(c, x), bound + 0x1_0000)
  {
  }

  /** Subtracting a 16-bit word with end-around borrow moves the accumulator at most 2^16 further from zero. */
  lemma SubEvenNearZero(c: U64, x: U16, bound: int)
    requires NearZero(c, bound) && 0x1_0000 <= bound <= TWO32
    ensures NearZero(SubEven(c, x), bound + 0x1_0000)
  {
  }

  /** The port rewrites move the L4 accumulator at most four 16-bit words further from zero. */
  lemma L4SumNearZero(instructions: set<Instruction>, seed: U64, preSp: U16, postSp: U16, preDp: U16, postDp: U16, bound: int)
    requires NearZero(seed, bound) && 0x1_0000 <= bound <= 0x8000_0000
    ensures NearZero(L4Sum(instructions, seed, preSp, postSp, preDp, postDp), bound + 0x4_0000)
  {
    var a1 := AddEven(seed, postSp);
    AddEvenNearZero(seed, postSp, bound);
    SubEvenNearZero(a1, preSp, bound + 0x1_0000);
    var c1 := if SourcePort in instructions then SubEven(a1, preSp) else seed;
    assert NearZero(c1, bound + 0x2_0000);
    var a2 := AddEven(c1, postDp);
    AddEvenNearZero(c1, postDp, bound + 0x2_0000);
    SubEvenNearZero(a2, preDp, bound + 0x3_0000);
  }

  /** Seeded with an `int` widened to `ip_csum_t`, as the worker seeds it with the stored L3 delta,
      the L4 delta returned as an `int` is still the seed plus the port delta as a 16-bit
      ones'-complement number: the accumulator stays close enough to zero that the truncation
      drops only whole multiples of 0xFFFF_FFFF. */
  lemma L4DeltaSignExtendedSeed(instructions: set<Instruction>, x: I32, preSp: U16, postSp: U16, preDp: U16, postDp: U16)
    ensures Congruent16(SignExtend(L4Delta(instructions, SignExtend(x), preSp, postSp, preDp, postDp)),
                        SignExtend(x) + PortDelta(instructions, preSp, postSp, preDp, postDp))
  {
    var seed := SignExtend(x);
    var c := L4Sum(instructions, seed, preSp, postSp, preDp, postDp);
    L4SumNearZero(instructions, seed, preSp, postSp, preDp, postDp, 0x8000_0000);
    TruncationKeepsOnes16(c);
    Ones64To16(c, seed + PortDelta(instructions, preSp, postSp, preDp, postDp));
    Trans16(SignExtend(Int32(c)), c, seed + PortDelta(instructions, preSp, postSp, preDp, postDp));
  }

  /** With at most one address rewritten, the L4 delta as the worker stores it (seeded with the
      widened L3 delta, both truncated to `int`) repairs the TCP/UDP checksum over pseudo-header
      and segment. */
  lemma L4DeltaRepairsSegment(pseudo: seq<U16>, t: seq<U16>, instructions: set<Instruction>,
                              postSa: U32, postDa: U32, postSp: U16, postDp: U16)
    requires AddressLayout(pseudo, PSEUDO_SA_WORD, PSEUDO_DA_WORD) && |t| >= 2
    requires SourceAddress !in instructions || DestinationAddress !in instructions
    ensures Congruent16(
      OnesSum16(RewriteAddresses(pseudo, PSEUDO_SA_WORD, PSEUDO_DA_WORD, instructions, postSa, postDa)
                + TranslatePorts(t, instructions, postSp, postDp)),
      OnesSum16(pseudo + t)
      + SignExtend(L4Delta(instructions,
                           SignExtend(L3Delta(instructions, Field32(pseudo, PSEUDO_SA_WORD), postSa, Field32(pseudo, PSEUDO_DA_WORD), postDa)),
                           t[SP_WORD], postSp, t[DP_WORD], postDp)))
  {
    var preSa, preDa := Field32(pseudo, PSEUDO_SA_WORD), Field32(pseudo, PSEUDO_DA_WORD);
    var ad := AddressDelta(instructions, preSa, postSa, preDa, postDa);
    var pd := PortDelta(instructions, t[SP_WORD], postSp, t[DP_WORD], postDp);
    var l3 := L3Delta(instructions, preSa, postSa, preDa, postDa);
    var s3 := SignExtend(l3);
    var s4 := SignExtend(L4Delta(instructions, s3, t[SP_WORD], postSp, t[DP_WORD], postDp));
    assert Congruent16(s4, ad + pd) by {
      L3DeltaOneAddress(instructions, preSa, postSa, preDa, postDa);
      L4DeltaSignExtendedSeed(instructions, l3, t[SP_WORD], postSp, t[DP_WORD], postDp);
      Shift16(s3, ad, pd);
      Trans16(s4, s3 + pd, ad + pd);
    }
    SegmentRepairedBy(pseudo, t, instructions, postSa, postDa, postSp, postDp, s4);
  }
}
