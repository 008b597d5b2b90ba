// A label seen as a string of bits, lowest first.
//
// The highest set bit of a label is only a marker; the bits below it are the
// path.  A packet under way has more bits above the marker, so its path is
// spoken of through the lowest n bits of the label.

module LabelBits {
  import opened Bits

  type Path = seq<bv1>

  const ALL_ONES: bv64 := 0xFFFF_FFFF_FFFF_FFFF
  const TOP_CLEAR: bv64 := 0x7FFF_FFFF_FFFF_FFFF

  // x shifted left by k places, one place at a time; bits shifted out are lost.
  function Shl(x: bv64, k: nat): bv64 {
    if k == 0 then x else Left(Shl(x, k - 1), 1)
  }

  // The same by a fixed number of places.
  function Left(x: bv64, k: bv64): bv64
    requires k < 64
  {
    x << k
  }

  function Right(x: bv64, k: bv64): bv64
    requires k < 64
  {
    x >> k
  }

  function Under(x: bv64, mask: bv64): bv64 {
    x & mask
  }

  function PushBit(x: bv64, b: bv1): bv64 {
    (x << 1) | (b as bv64)
  }

  function LowestBit(x: bv64): bv1 {
    (x & 1) as bv1
  }

  // Every bit of x is one of the bits of m.
  predicate Fits(x: bv64, m: bv64) {
    x & m == x
  }

  function Or(x: bv64, y: bv64): bv64 {
    x | y
  }

  predicate AtMost(x: bv64, y: bv64) {
    x <= y
  }

  predicate AgreeUnder(x: bv64, y: bv64, mask: bv64) {
    x & mask == y & mask
  }

  // The n lowest bits of a label.
  function LowBits(x: bv64, n: nat): (p: Path)
    ensures |p| == n
  {
    if n == 0 then [] else [LowestBit(x)] + LowBits(Half(x), n - 1)
  }

  // The path of a label: everything below its marker.
  function PathOf(x: bv64): (p: Path)
    ensures |p| == Log2(x)
  {
    if Half(x) == 0 then [] else HalfIsSmaller(x); [LowestBit(x)] + PathOf(Half(x))
  }

  // The label with a given path.
  function FromPath(p: Path): bv64 {
    if p == [] then 1 else PushBit(FromPath(p[1..]), p[0])
  }

  // The n lowest bits set: UINT64_MAX >> (64 - n).
  function Mask(n: nat): bv64
    requires n <= 64
  {
    Shr(ALL_ONES, 64 - n)
  }

  // ---------------------------------------------------------------- one bit

  lemma PushThenHalve(x: bv64, b: bv1)
    requires Fits(x, TOP_CLEAR)
    ensures Half(PushBit(x, b)) == x && LowestBit(PushBit(x, b)) == b
  {}

  lemma HalveThenPush(x: bv64)
    ensures PushBit(Half(x), LowestBit(x)) == x
    ensures Fits(Half(x), TOP_CLEAR)
  {}

  lemma PushFits(x: bv64, m: bv64, b: bv1)
    requires Fits(x, m) && Fits(m, TOP_CLEAR)
    ensures Fits(PushBit(x, b), PushBit(m, 1)) && Fits(x, TOP_CLEAR)
    ensures x != 0 ==> PushBit(x, b) != 0
  {}

  lemma MaskedParts(x: bv64, m: bv64)
    requires Fits(m, TOP_CLEAR)
    ensures Half(x & PushBit(m, 1)) == Half(x) & m
    ensures LowestBit(x & PushBit(m, 1)) == LowestBit(x)
  {}

  lemma CompareDown(x: bv64, y: bv64)
    ensures x <= y ==> Half(x) <= Half(y)
  {}

  lemma CompareUp(x: bv64, y: bv64)
    requires (x & 1) as bv1 == (y & 1) as bv1
    ensures Half(x) <= Half(y) ==> x <= y
  {}

  // Words with the same lowest bit compare as what is left without it.
  lemma CompareStep(x: bv64, y: bv64)
    requires LowestBit(x) == LowestBit(y)
    ensures AtMost(x, y) <==> AtMost(Half(x), Half(y))
  {
    CompareDown(x, y);
    CompareUp(x, y);
  }

  // Two words agree under a mask one bit wider when their lowest bits agree and
  // the rest agrees under the mask.
  lemma MaskWidens(x: bv64, y: bv64, m: bv64)
    requires Fits(m, TOP_CLEAR)
    requires LowestBit(x) == LowestBit(y) && AgreeUnder(Half(x), Half(y), m)
    ensures AgreeUnder(x, y, PushBit(m, 1))
  {
    MaskedParts(x, m);
    MaskedParts(y, m);
    HalveThenPush(x & PushBit(m, 1));
    HalveThenPush(y & PushBit(m, 1));
  }

  lemma MaskNarrows(x: bv64, y: bv64, m: bv64)
    requires Fits(m, TOP_CLEAR)
    requires AgreeUnder(x, y, PushBit(m, 1))
    ensures LowestBit(x) == LowestBit(y) && AgreeUnder(Half(x), Half(y), m)
  {
    MaskedParts(x, m);
    MaskedParts(y, m);
  }

  // ------------------------------------------------------------------ masks

  lemma ShrNext(x: bv64, k: nat, v: bv64)
    requires Shr(x, k) == v
    ensures Shr(x, k + 1) == Half(v)
  {}

  lemma ShrTwo(x: bv64, k: nat, v: bv64)
    requires Shr(x, k) == v
    ensures Shr(x, k + 2) == v >> 2
  {
    ShrNext(x, k, v);
    ShrNext(x, k + 1, Half(v));
  }

  lemma ShrNibble(x: bv64, k: nat, v: bv64)
    requires Shr(x, k) == v
    ensures Shr(x, k + 4) == v >> 4
  {
    ShrTwo(x, k, v);
    ShrTwo(x, k + 2, v >> 2);
  }

  lemma ShrOctet(x: bv64)
    ensures Shr(x, 4) == x >> 4 && Shr(x, 8) == x >> 8
  {
    ShrNibble(x, 0, x);
    ShrNibble(x, 4, x >> 4);
  }

  lemma ShrSix(x: bv64)
    ensures Shr(x, 6) == x >> 6
  {
    ShrOctet(x);
    ShrTwo(x, 4, x >> 4);
  }

  lemma ShrSeven(x: bv64)
    ensures Shr(x, 7) == x >> 7
  {
    ShrSix(x);
    ShrNext(x, 6, x >> 6);
  }

  lemma ShrTen(x: bv64)
    ensures Shr(x, 10) == x >> 10
  {
    ShrOctet(x);
    ShrTwo(x, 8, x >> 8);
  }

  // Shifts by the widths a code can have.
  lemma ShrValues(x: bv64)
    ensures Shr(x, 4) == Right(x, 4) && Shr(x, 7) == Right(x, 7)
    ensures Shr(x, 8) == Right(x, 8) && Shr(x, 10) == Right(x, 10)
  {
    hide Shr;
    ShrOctet(x);
    ShrSeven(x);
    ShrTen(x);
  }

  lemma ShlNext(x: bv64, k: nat, v: bv64)
    requires Shl(x, k) == v
    ensures Shl(x, k + 1) == v << 1
  {}

  lemma ShlTwo(x: bv64, k: nat, v: bv64)
    requires Shl(x, k) == v
    ensures Shl(x, k + 2) == v << 2
  {
    ShlNext(x, k, v);
    ShlNext(x, k + 1, v << 1);
  }

  lemma ShlNibble(x: bv64, k: nat, v: bv64)
    requires Shl(x, k) == v
    ensures Shl(x, k + 4) == v << 4
  {
    ShlTwo(x, k, v);
    ShlTwo(x, k + 2, v << 2);
  }

  lemma ShlOctet(x: bv64)
    ensures Shl(x, 4) == x << 4 && Shl(x, 8) == x << 8
  {
    ShlNibble(x, 0, x);
    ShlNibble(x, 4, x << 4);
  }

  lemma ShlSix(x: bv64)
    ensures Shl(x, 6) == x << 6
  {
    ShlOctet(x);
    ShlTwo(x, 4, x << 4);
  }

  lemma ShlSeven(x: bv64)
    ensures Shl(x, 7) == x << 7
  {
    ShlSix(x);
    ShlNext(x, 6, x << 6);
  }

  lemma ShlTen(x: bv64)
    ensures Shl(x, 10) == x << 10
  {
    ShlOctet(x);
    ShlTwo(x, 8, x << 8);
  }

  lemma ShlValues(x: bv64)
    ensures Shl(x, 4) == Left(x, 4) && Shl(x, 7) == Left(x, 7)
    ensures Shl(x, 8) == Left(x, 8) && Shl(x, 10) == Left(x, 10)
  {
    hide Shl;
    ShlOctet(x);
    ShlSeven(x);
    ShlTen(x);
  }

  lemma {:induction false} ShlTwice(x: bv64, j: nat, k: nat)
    ensures Shl(Shl(x, j), k) == Shl(x, j + k)
  {
    if k > 0 {
      ShlTwice(x, j, k - 1);
    }
  }

  lemma MaskHalf()
    ensures Mask(32) == 0xFFFF_FFFF
  {
    ShrNibble(ALL_ONES, 0, ALL_ONES);
    ShrNibble(ALL_ONES, 4, 0xFFF_FFFF_FFFF_FFFF);
    ShrNibble(ALL_ONES, 8, 0xFF_FFFF_FFFF_FFFF);
    ShrNibble(ALL_ONES, 12, 0xF_FFFF_FFFF_FFFF);
    ShrNibble(ALL_ONES, 16, 0xFFFF_FFFF_FFFF);
    ShrNibble(ALL_ONES, 20, 0xFFF_FFFF_FFFF);
    ShrNibble(ALL_ONES, 24, 0xFF_FFFF_FFFF);
    ShrNibble(ALL_ONES, 28, 0xF_FFFF_FFFF);
  }

  lemma MaskTwelve()
    ensures Mask(12) == 0xFFF
  {
    MaskHalf();
    ShrNibble(ALL_ONES, 32, 0xFFFF_FFFF);
    ShrNibble(ALL_ONES, 36, 0xFFF_FFFF);
    ShrNibble(ALL_ONES, 40, 0xFF_FFFF);
    ShrNibble(ALL_ONES, 44, 0xF_FFFF);
    ShrNibble(ALL_ONES, 48, 0xFFFF);
  }

  lemma MaskNarrow()
    ensures Mask(4) == 0xF && Mask(8) == 0xFF
  {
    MaskTwelve();
    ShrNibble(ALL_ONES, 52, 0xFFF);
    ShrNibble(ALL_ONES, 56, 0xFF);
  }

  lemma MaskOfOneBit()
    ensures Mask(0) == 0 && Mask(1) == 1
  {
    MaskNarrow();
    ShrNext(ALL_ONES, 60, 0xF);
    ShrNext(ALL_ONES, 61, 7);
    ShrNext(ALL_ONES, 62, 3);
    ShrNext(ALL_ONES, 63, 1);
  }

  lemma FullStaysFull(x: bv64)
    requires x & (x + 1) == 0
    ensures Half(x) & (Half(x) + 1) == 0
    ensures x != 0 ==> LowestBit(x) == 1
  {}

  lemma {:induction false} MaskIsFull(n: nat)
    requires n <= 64
    ensures Mask(n) & (Mask(n) + 1) == 0
    decreases 64 - n
  {
    if n < 64 {
      MaskIsFull(n + 1);
      FullStaysFull(Mask(n + 1));
    }
  }

  lemma {:induction false} MaskIsPositive(n: nat)
    requires 1 <= n <= 64
    ensures Mask(n) != 0
  {
    MaskOfOneBit();
    if n > 1 {
      MaskIsPositive(n - 1);
    }
  }

  lemma MaskGrows(n: nat)
    requires 1 <= n <= 64
    ensures Mask(n) == PushBit(Mask(n - 1), 1)
    ensures Fits(Mask(n - 1), TOP_CLEAR)
  {
    MaskIsPositive(n);
    MaskIsFull(n);
    FullStaysFull(Mask(n));
    HalveThenPush(Mask(n));
  }

  lemma MasksOfCodes()
    ensures Mask(4) == 0xF && Mask(7) == 0x7F && Mask(8) == 0xFF && Mask(10) == 0x3FF
  {
    MaskNarrow();
    MaskTwelve();
    hide Shr;
    ShrNext(ALL_ONES, 56, 0xFF);
    ShrTwo(ALL_ONES, 52, 0xFFF);
  }

  // ------------------------------------------------------- labels and paths

  lemma {:induction false} FromPathFits(p: Path)
    requires |p| <= 63
    ensures Fits(FromPath(p), Mask(|p| + 1)) && FromPath(p) != 0
  {
    if p == [] {
      MaskOfOneBit();
    } else {
      FromPathFits(p[1..]);
      MaskGrows(|p| + 1);
      PushFits(FromPath(p[1..]), Mask(|p|), p[0]);
    }
  }

  lemma FromPathHasRoom(p: Path)
    requires |p| <= 62
    ensures Fits(FromPath(p), TOP_CLEAR) && FromPath(p) != 0
  {
    FromPathFits(p);
    MaskGrows(|p| + 2);
    PushFits(FromPath(p), Mask(|p| + 1), 1);
  }

  lemma PushExtendsPath(x: bv64, b: bv1)
    requires x != 0 && Fits(x, TOP_CLEAR)
    ensures PathOf(PushBit(x, b)) == [b] + PathOf(x)
  {
    PushThenHalve(x, b);
  }

  // A path that fits is recovered from its label ...
  lemma {:induction false} PathSurvives(p: Path)
    requires |p| <= 63
    ensures PathOf(FromPath(p)) == p
  {
    if p != [] {
      FromPathHasRoom(p[1..]);
      PushExtendsPath(FromPath(p[1..]), p[0]);
      PathSurvives(p[1..]);
    }
  }

  // ... and every label is the label of its path.
  lemma {:induction false} LabelSurvives(x: bv64)
    requires x != 0
    ensures FromPath(PathOf(x)) == x
    decreases x
  {
    if Half(x) == 0 {
      OnlyOneHalvesToZero(x);
    } else {
      HalfIsSmaller(x);
      LabelSurvives(Half(x));
      HalveThenPush(x);
    }
  }

  lemma OneIsSmall(x: bv64)
    requires Fits(x, 1)
    ensures Half(x) == 0
  {}

  lemma HalfFits(x: bv64, n: nat)
    requires 2 <= n <= 64 && Fits(x, Mask(n))
    ensures Fits(Half(x), Mask(n - 1))
  {}

  lemma FitsOneBit(x: bv64)
    requires Fits(x, Mask(1))
    ensures Half(x) == 0
  {
    MaskOfOneBit();
    OneIsSmall(x);
  }

  lemma AllFit(x: bv64)
    ensures Fits(x, ALL_ONES)
  {}

  lemma {:induction false} PathIsBounded(x: bv64, n: nat)
    requires 1 <= n <= 64 && Fits(x, Mask(n))
    ensures Log2(x) < n
  {
    if n == 1 {
      FitsOneBit(x);
    } else if Half(x) != 0 {
      HalfFits(x, n);
      PathIsBounded(Half(x), n - 1);
    }
  }

  lemma Log2IsBounded(x: bv64)
    ensures Log2(x) <= 63
  {
    AllFit(x);
    PathIsBounded(x, 64);
  }

  // Above its path a label holds the marker, and above that nothing.
  lemma {:induction false} PathThenMarker(x: bv64, n: nat)
    requires x != 0 && Log2(x) <= n
    ensures LowBits(x, n) == PathOf(x) + LowBits(1, n - Log2(x))
    decreases n
  {
    hide LowestBit;
    if Half(x) == 0 {
      OnlyOneHalvesToZero(x);
      assert PathOf(x) + LowBits(1, n) == LowBits(1, n);
    } else {
      hide Half;
      PathThenMarker(Half(x), n - 1);
    }
  }

  lemma HalfOfZero()
    ensures Half(0) == 0
  {}

  lemma {:induction false} NoBits(n: nat)
    ensures forall i :: 0 <= i < n ==> LowBits(0, n)[i] == 0
  {
    HalfOfZero();
    if n > 0 {
      NoBits(n - 1);
    }
  }

  lemma MarkerAlone(n: nat, i: nat)
    requires 0 < i < n
    ensures LowBits(1, n)[i] == 0
  {
    NoBits(n - 1);
  }

  // Log2 is the position of the highest set bit: that bit is set, and none above it.
  lemma Log2IsHighestBit(x: bv64)
    requires x != 0
    ensures Log2(x) < 64 && LowBits(x, 64)[Log2(x)] == 1
    ensures forall i :: Log2(x) < i < 64 ==> LowBits(x, 64)[i] == 0
  {
    var n := Log2(x);
    Log2IsBounded(x);
    PathThenMarker(x, 64);
    hide LowBits, PathOf, Log2;
    LowestOfOne(64 - n);
    forall i | n < i < 64
      ensures LowBits(x, 64)[i] == 0
    {
      MarkerAlone(64 - n, i - n);
    }
  }

  lemma LowestOfOne(n: nat)
    requires n > 0
    ensures LowBits(1, n)[0] == 1
  {}
}
