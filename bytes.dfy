/**
 * Fixed-width integers and the byte layout of the CAN payload.
 *
 * A CAN message carries its 8-byte payload in a 64-bit integer and its
 * identifier in a 32-bit integer.  The translator fills both by copying bytes
 * into their memory (memcpy, byte-wise stores), so the value they end up with
 * depends on the host's byte order.  The model fixes that order to
 * little-endian: byte 0 in memory is the least significant byte.
 */
module Bytes {

  type byte = x: int | 0 <= x < 0x100
  type uint32 = x: int | 0 <= x < 0x1_0000_0000
  type uint64 = x: int | 0 <= x < 0x1_0000_0000_0000_0000

  function Pow256(n: nat): (r: nat)
    ensures r >= 1
  {
    if n == 0 then 1 else 256 * Pow256(n - 1)
  }

  lemma Pow256Widths()
    ensures Pow256(4) == 0x1_0000_0000
    ensures Pow256(8) == 0x1_0000_0000_0000_0000
  {
  }

  /** The value of `bs` read least significant byte first (little-endian memory). */
  function LeValue(bs: seq<byte>): (r: nat)
    ensures r < Pow256(|bs|)
  {
    if bs == [] then 0 else bs[0] + 256 * LeValue(bs[1..])
  }

  /** The `n` bytes that hold `x` in little-endian memory, least significant first. */
  function LeBytes(x: nat, n: nat): (r: seq<byte>)
    ensures |r| == n
  {
    if n == 0 then [] else [x % 256] + LeBytes(x / 256, n - 1)
  }

  /** Storing the value read from some bytes gives back those bytes. */
  lemma {:induction false} LeBytesOfLeValue(bs: seq<byte>)
    ensures LeBytes(LeValue(bs), |bs|) == bs
  {
    if bs != [] {
      LeBytesOfLeValue(bs[1..]);
      var v := LeValue(bs);
      assert v % 256 == bs[0] && v / 256 == LeValue(bs[1..]);
    }
  }

  /** Reading back the bytes that store a value that fits gives the value. */
  lemma {:induction false} LeValueOfLeBytes(x: nat, n: nat)
    requires x < Pow256(n)
    ensures LeValue(LeBytes(x, n)) == x
  {
    if n > 0 {
      LeValueOfLeBytes(x / 256, n - 1);
    }
  }

  function Reverse(bs: seq<byte>): (r: seq<byte>)
    ensures |r| == |bs|
    ensures forall i :: 0 <= i < |bs| ==> r[i] == bs[|bs| - 1 - i]
  {
    seq(|bs|, i requires 0 <= i < |bs| => bs[|bs| - 1 - i])
  }

  /** The value of `bs` read most significant byte first (big-endian). */
  function BeValue(bs: seq<byte>): nat
  {
    if bs == [] then 0 else 256 * BeValue(bs[..|bs| - 1]) + bs[|bs| - 1]
  }

  /** Big-endian is little-endian read backwards: the two byte orders agree through `Reverse`. */
  lemma {:induction false} BeValueIsReversedLeValue(bs: seq<byte>)
    ensures BeValue(bs) == LeValue(Reverse(bs))
    decreases |bs|
  {
    if bs != [] {
      var init := bs[..|bs| - 1];
      BeValueIsReversedLeValue(init);
      assert Reverse(bs)[1..] == Reverse(init);
    }
  }

  /** The byte swap of a 64-bit value (GCC's __builtin_bswap64): its bytes in the opposite order. */
  function Bswap64(x: uint64): (r: uint64)
    ensures LeBytes(r, 8) == Reverse(LeBytes(x, 8))
  {
    Pow256Widths();
    var swapped := Reverse(LeBytes(x, 8));
    LeBytesOfLeValue(swapped);
    LeValue(swapped)
  }

  /** Swapping twice gives back the original value. */
  lemma Bswap64Involution(x: uint64)
    ensures Bswap64(Bswap64(x)) == x
  {
    Pow256Widths();
    var once := Bswap64(x);
    var twice := Bswap64(once);
    assert LeBytes(twice, 8) == Reverse(Reverse(LeBytes(x, 8)));
    assert Reverse(Reverse(LeBytes(x, 8))) == LeBytes(x, 8);
    LeValueOfLeBytes(twice, 8);
    LeValueOfLeBytes(x, 8);
  }
}
