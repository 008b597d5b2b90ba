// Bit-level helpers of util/Bits.h: the 64-bit reversal, the base-2 logarithm
// and the first-match byte search.

module Bytes {
  newtype byte = x: int | 0 <= x < 256

  // The order in which a host keeps the bytes of a number in memory.
  datatype Host = LittleEndian | BigEndian
}

module Bits {
  import opened Bytes

  // One stage of the reversal: exchange neighbouring groups of n bits.
  function Exchange(x: bv64, mask: bv64, n: bv64): bv64
    requires n < 64
  {
    ((x >> n) & mask) | ((x & mask) << n)
  }

  function Reverse(x: bv64): bv64 {
    var pairs := Exchange(x, 0x5555_5555_5555_5555, 1);
    var nibbles := Exchange(pairs, 0x3333_3333_3333_3333, 2);
    var octets := Exchange(nibbles, 0x0F0F_0F0F_0F0F_0F0F, 4);
    var shorts := Exchange(octets, 0x00FF_00FF_00FF_00FF, 8);
    var words := Exchange(shorts, 0x0000_FFFF_0000_FFFF, 16);
    Exchange(words, 0x0000_0000_FFFF_FFFF, 32)
  }

  predicate Bit(x: bv64, i: bv64)
    requires i < 64
  {
    x & (1 << i) != 0
  }

  lemma ReverseDistributes(x: bv64, y: bv64)
    ensures Reverse(x & y) == Reverse(x) & Reverse(y)
  {}

  lemma ReverseOfOr(x: bv64, y: bv64)
    ensures Reverse(x | y) == Reverse(x) | Reverse(y)
  {}

  lemma ReverseKeepsZero(x: bv64)
    ensures Reverse(x) == 0 <==> x == 0
  {}

  lemma ReverseOfOneBit(i: bv64)
    requires i < 64
    ensures Reverse(1 << (63 - i)) == 1 << i
  {}

  // Reversal moves bit i to bit 63 - i ...
  lemma ReverseMovesBits(x: bv64, i: bv64)
    requires i < 64
    ensures Bit(Reverse(x), i) == Bit(x, 63 - i)
  {
    ReverseOfOneBit(i);
    ReverseDistributes(x, 1 << (63 - i));
    ReverseKeepsZero(x & (1 << (63 - i)));
  }

  // ... and reversing twice changes nothing.
  lemma ReverseIsInvolution(x: bv64)
    ensures Reverse(Reverse(x)) == x
  {}

  // The bytes of a word in the opposite order: what converting between host and
  // big-endian order does on a little-endian host.
  function SwapBytes(x: bv64): bv64 {
    var bytes := Exchange(x, 0x00FF_00FF_00FF_00FF, 8);
    var shorts := Exchange(bytes, 0x0000_FFFF_0000_FFFF, 16);
    Exchange(shorts, 0x0000_0000_FFFF_FFFF, 32)
  }

  // The eight bytes that a host keeps in memory for a word, first address first.
  function MemoryOf(host: Host, x: bv64): (bytes: seq<bv64>)
    ensures |bytes| == 8
  {
    match host
    case LittleEndian =>
      [ByteAt(x, 0), ByteAt(x, 8), ByteAt(x, 16), ByteAt(x, 24),
       ByteAt(x, 32), ByteAt(x, 40), ByteAt(x, 48), ByteAt(x, 56)]
    case BigEndian =>
      [ByteAt(x, 56), ByteAt(x, 48), ByteAt(x, 40), ByteAt(x, 32),
       ByteAt(x, 24), ByteAt(x, 16), ByteAt(x, 8), ByteAt(x, 0)]
  }

  function ByteAt(x: bv64, at: bv64): bv64
    requires at < 64
  {
    (x >> at) & 0xFF
  }

  // The number that bytes are when the first is the highest.
  function HighestFirst(bytes: seq<bv64>): bv64 {
    if bytes == [] then 0 else WithByte(HighestFirst(bytes[..|bytes| - 1]), bytes[|bytes| - 1])
  }

  function WithByte(x: bv64, byteOfIt: bv64): bv64 {
    (x << 8) | byteOfIt
  }

  // What stands on the wire for a word in memory.
  function OnWire(host: Host, x: bv64): bv64 {
    HighestFirst(MemoryOf(host, x))
  }

  lemma EightBytes(b: seq<bv64>)
    requires |b| == 8
    ensures HighestFirst(b) == WithByte(WithByte(WithByte(WithByte(WithByte(WithByte(WithByte(WithByte(0,
      b[0]), b[1]), b[2]), b[3]), b[4]), b[5]), b[6]), b[7])
  {
    hide WithByte, HighestFirst;
    FourMore(b, 0);
    FourMore(b, 4);
    HighestStep(b, 0);
    assert b[..8] == b;
  }

  lemma FourMore(b: seq<bv64>, n: nat)
    requires n + 4 <= |b|
    ensures HighestFirst(b[..n + 4])
         == WithByte(WithByte(WithByte(WithByte(HighestFirst(b[..n]), b[n]), b[n + 1]), b[n + 2]), b[n + 3])
  {
    hide WithByte, HighestFirst;
    HighestStep(b, n);
    HighestStep(b, n + 1);
    HighestStep(b, n + 2);
    HighestStep(b, n + 3);
  }

  lemma HighestStep(b: seq<bv64>, n: nat)
    requires n < |b|
    ensures HighestFirst(b[..n + 1]) == WithByte(HighestFirst(b[..n]), b[n])
    ensures HighestFirst(b[..0]) == 0
  {
    hide WithByte;
    assert b[..n + 1][..n] == b[..n];
  }

  lemma WordIsItsBytes(x: bv64)
    ensures WithByte(WithByte(WithByte(WithByte(WithByte(WithByte(WithByte(WithByte(0,
      ByteAt(x, 56)), ByteAt(x, 48)), ByteAt(x, 40)), ByteAt(x, 32)),
      ByteAt(x, 24)), ByteAt(x, 16)), ByteAt(x, 8)), ByteAt(x, 0)) == x
  {}

  lemma SwappedIsItsBytes(x: bv64)
    ensures WithByte(WithByte(WithByte(WithByte(WithByte(WithByte(WithByte(WithByte(0,
      ByteAt(x, 0)), ByteAt(x, 8)), ByteAt(x, 16)), ByteAt(x, 24)),
      ByteAt(x, 32)), ByteAt(x, 40)), ByteAt(x, 48)), ByteAt(x, 56)) == SwapBytes(x)
  {}

  // A big-endian host holds what stands on the wire, a little-endian one its bytes in the
  // opposite order.
  lemma OnWireIs(host: Host, x: bv64)
    ensures OnWire(host, x) == if host.LittleEndian? then SwapBytes(x) else x
  {
    hide WithByte, ByteAt, SwapBytes, HighestFirst;
    EightBytes(MemoryOf(host, x));
    WordIsItsBytes(x);
    SwappedIsItsBytes(x);
  }

  // What is left of the reversal when the bytes are swapped as well: the bits of
  // every byte are reversed, the bytes stay where they are.
  function ReverseWithinBytes(x: bv64): bv64 {
    var pairs := Exchange(x, 0x5555_5555_5555_5555, 1);
    var nibbles := Exchange(pairs, 0x3333_3333_3333_3333, 2);
    Exchange(nibbles, 0x0F0F_0F0F_0F0F_0F0F, 4)
  }

  lemma ReverseAfterSwap(x: bv64)
    ensures Reverse(SwapBytes(x)) == ReverseWithinBytes(x)
  {}

  lemma SwapAfterReverse(x: bv64)
    ensures SwapBytes(Reverse(x)) == ReverseWithinBytes(x)
  {}

  lemma SwapIsInvolution(x: bv64)
    ensures SwapBytes(SwapBytes(x)) == x
  {}

  // The reversal is endian safe: applying it to the big-endian form of a label
  // gives the big-endian form of the reversed label.
  lemma ReverseIsEndianSafe(x: bv64)
    ensures Reverse(SwapBytes(x)) == SwapBytes(Reverse(x))
  {
    ReverseAfterSwap(x);
    SwapAfterReverse(x);
  }

  // Reverses a word in place, one stage after the other.
  method BitReverse64(x: bv64) returns (toReverse: bv64)
    ensures forall i: bv64 | i < 64 :: Bit(toReverse, i) == Bit(x, 63 - i)
    ensures toReverse == Reverse(x)
  {
    toReverse := x;
    toReverse := Exchange(toReverse, 0x5555_5555_5555_5555, 1);
    toReverse := Exchange(toReverse, 0x3333_3333_3333_3333, 2);
    toReverse := Exchange(toReverse, 0x0F0F_0F0F_0F0F_0F0F, 4);
    toReverse := Exchange(toReverse, 0x00FF_00FF_00FF_00FF, 8);
    toReverse := Exchange(toReverse, 0x0000_FFFF_0000_FFFF, 16);
    toReverse := Exchange(toReverse, 0x0000_0000_FFFF_FFFF, 32);
    forall i: bv64 | i < 64 ensures Bit(toReverse, i) == Bit(x, 63 - i) {
      ReverseMovesBits(x, i);
    }
  }

  function Half(x: bv64): bv64 {
    x >> 1
  }

  // x shifted right by k places.
  function Shr(x: bv64, k: nat): bv64 {
    if k == 0 then x else Half(Shr(x, k - 1))
  }

  // The position of the highest set bit; 0 for both 0 and 1.
  function Log2(x: bv64): (k: nat) {
    if Half(x) == 0 then 0 else HalfIsSmaller(x); 1 + Log2(Half(x))
  }

  lemma HalfIsSmaller(x: bv64)
    ensures x == 0 || Half(x) < x
  {}

  lemma OnlyOneHalvesToZero(x: bv64)
    requires x != 0 && Half(x) == 0
    ensures x == 1
  {}

  // Counts how often the number can be halved before nothing is left: shifted right by as
  // many places, only its highest bit is left.
  method Log2x64(number: bv64) returns (out: int)
    ensures out == Log2(number)
    ensures number != 0 ==> out >= 0 && Shr(number, out) == 1
  {
    out := 0;
    var rest := Half(number);
    while rest != 0
      invariant 0 <= out && rest == Half(Shr(number, out)) && (number != 0 ==> Shr(number, out) != 0)
      invariant Log2(number) == out + if rest == 0 then 0 else 1 + Log2(rest)
      decreases rest
    {
      HalfIsSmaller(rest);
      out := out + 1;
      rest := Half(rest);
    }
    if number != 0 {
      OnlyOneHalvesToZero(Shr(number, out));
    }
  }

  // Whether needle occurs in haystack at position i.
  predicate OccursAt(haystack: seq<byte>, needle: seq<byte>, i: int) {
    0 <= i <= |haystack| - |needle| && haystack[i..i + |needle|] == needle
  }

  // The first occurrence of needle in haystack, or -1 if there is none (or if
  // either is empty).
  method MemMem(haystack: seq<byte>, needle: seq<byte>) returns (found: int)
    ensures found == -1 || (haystack != [] && needle != [] && OccursAt(haystack, needle, found))
    ensures haystack != [] && needle != [] ==>
      forall i :: 0 <= i < (if found == -1 then |haystack| else found) ==> !OccursAt(haystack, needle, i)
  {
    if haystack == [] || needle == [] {
      return -1;
    }
    var at := 0;
    while at <= |haystack| - |needle|
      invariant 0 <= at
      invariant forall i :: 0 <= i < at ==> !OccursAt(haystack, needle, i)
    {
      if haystack[at] == needle[0] && haystack[at..at + |needle|] == needle {
        return at;
      }
      at := at + 1;
    }
    return -1;
  }
}
