/**
 * Fixed-width machine integers of the C sources, kept as bounded `int`s, and
 * the conversions between widths that the worker performs implicitly.
 * The host is taken to be little-endian, as the worker's targets are.
 */
module Machine {

  datatype Option<T> = None | Some(value: T)

  type U8 = x: int | 0 <= x < 0x100
  type U16 = x: int | 0 <= x < 0x1_0000
  type U32 = x: int | 0 <= x < 0x1_0000_0000
  type U64 = x: int | 0 <= x < 0x1_0000_0000_0000_0000
  type I32 = x: int | -0x8000_0000 <= x < 0x8000_0000

  const TWO32: int := 0x1_0000_0000
  const TWO64: int := 0x1_0000_0000_0000_0000

  /** `~0` stored in a u32: the "no such index" value of the worker. */
  const U32_NONE: U32 := 0xFFFF_FFFF

  /** Byte `i` (0 = least significant) of a 32-bit word. */
  function Byte(x: U32, i: nat): U8
    requires i < 4
  {
    if i == 0 then x % 0x100
    else if i == 1 then x / 0x100 % 0x100
    else if i == 2 then x / 0x100 / 0x100 % 0x100
    else x / 0x100 / 0x100 / 0x100 % 0x100
  }

  /** Division by 256 of a number written as one low byte plus 256 times the rest. */
  lemma ByteStep(lo: U8, hi: nat)
    ensures (lo + 0x100 * hi) % 0x100 == lo
    ensures (lo + 0x100 * hi) / 0x100 == hi
  {
  }

  /** Assembles a 32-bit word from its bytes, least significant first. */
  function FromBytes(b0: U8, b1: U8, b2: U8, b3: U8): (r: U32)
    ensures Byte(r, 0) == b0 && Byte(r, 1) == b1 && Byte(r, 2) == b2 && Byte(r, 3) == b3
  {
    ByteStep(b0, b1 + 0x100 * (b2 + 0x100 * b3));
    ByteStep(b1, b2 + 0x100 * b3);
    ByteStep(b2, b3);
    b0 + 0x100 * (b1 + 0x100 * (b2 + 0x100 * b3))
  }

  /** `ntohl` on a little-endian host: the four bytes of `x` in reverse order. */
  function Ntohl(x: U32): (r: U32)
    ensures Byte(r, 0) == Byte(x, 3) && Byte(r, 1) == Byte(x, 2)
    ensures Byte(r, 2) == Byte(x, 1) && Byte(r, 3) == Byte(x, 0)
  {
    FromBytes(Byte(x, 3), Byte(x, 2), Byte(x, 1), Byte(x, 0))
  }

  /** A word is determined by its four bytes. */
  lemma {:induction false} BytesDetermineWord(x: U32, y: U32)
    requires forall i :: 0 <= i < 4 ==> Byte(x, i) == Byte(y, i)
    ensures x == y
  {
    assert Byte(x, 3) == Byte(y, 3);
    var x1, y1 := x / 0x100, y / 0x100;
    var x2, y2 := x1 / 0x100, y1 / 0x100;
    assert x2 / 0x100 == y2 / 0x100;
    assert x2 % 0x100 == y2 % 0x100 by { assert Byte(x, 2) == Byte(y, 2); }
    assert x2 == y2;
    assert x1 % 0x100 == y1 % 0x100 by { assert Byte(x, 1) == Byte(y, 1); }
    assert x1 == y1;
    assert x % 0x100 == y % 0x100 by { assert Byte(x, 0) == Byte(y, 0); }
  }

  /** `htonl (ntohl (x)) == x`: swapping the byte order twice gives the word back. */
  lemma NtohlInvolution(x: U32)
    ensures Ntohl(Ntohl(x)) == x
  {
    BytesDetermineWord(Ntohl(Ntohl(x)), x);
  }

  /** The conversion of an `ip_csum_t` (u64) to the C `int` a function returns:
      the low 32 bits, read as a two's-complement number. */
  function Int32(c: U64): (r: I32)
    ensures (r - c) % TWO32 == 0
  {
    var lo := c % TWO32;
    if lo < 0x8000_0000 then lo else lo - TWO32
  }

  /** The conversion of a C `int` back to `ip_csum_t` (u64): sign extension. */
  function SignExtend(x: I32): (r: U64)
    ensures (r - x) % TWO64 == 0
    ensures r < 0x8000_0000 || r >= TWO64 - 0x8000_0000
  {
    if x < 0 then x + TWO64 else x
  }

  /** Truncating a sign-extended `int` gives that `int` back. */
  lemma Int32SignExtend(x: I32)
    ensures Int32(SignExtend(x)) == x
  {
  }
}
