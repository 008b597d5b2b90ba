// Composing labels: switch/LabelSplicer.h.

module LabelSplicer {
  import opened Bits
  import opened LabelBits
  import opened NumberCompress
  import opened Switching

  function Xor(x: bv64, y: bv64): bv64 {
    x ^ y
  }

  // The label that goes to viaHere first and from there to goHere, or ALL_ONES if
  // the two do not fit in one label.
  function Splice(goHere: bv64, viaHere: bv64): bv64 {
    if Log2(goHere) + Log2(viaHere) > 60 then ALL_ONES
    else Xor(Shl(Xor(goHere, 1), Log2(viaHere)), viaHere)
  }

  // Whether the route to destination goes through the node at midPath.
  predicate RoutesThrough(destination: bv64, midPath: bv64)
    requires midPath > 1
  {
    if !AtMost(midPath, destination) then false
    else
      Log2IsBounded(midPath);
      AgreeUnder(destination, midPath, Mask(Log2(midPath)))
  }

  // ---------------------------------------------------------- splicing is joining paths

  lemma ShiftUnderXor(x: bv64, via: bv64)
    ensures (x << 1) ^ via == PushBit(x ^ Half(via), LowestBit(via))
  {}

  lemma PushUnderXor(x: bv64, via: bv64)
    ensures Xor(x << 1, via) == PushBit(Xor(x, Half(via)), LowestBit(via))
  {
    hide PushBit, LowestBit, Half;
    ShiftUnderXor(x, via);
  }

  lemma ShiftedUnderXor(x: bv64, via: bv64, k: nat)
    ensures Xor(Shl(x, k + 1), via) == PushBit(Xor(Shl(x, k), Half(via)), LowestBit(via))
  {
    hide PushBit, LowestBit, Xor, Half;
    PushUnderXor(Shl(x, k), via);
  }

  // Splicing below one more bit puts that bit below the splice.
  lemma SpliceBit(goHere: bv64, viaHere: bv64)
    requires Half(viaHere) != 0 && Log2(goHere) + Log2(viaHere) <= 60
    ensures Splice(goHere, viaHere) == PushBit(Splice(goHere, Half(viaHere)), LowestBit(viaHere))
  {
    Log2Step(viaHere);
    hide PushBit, LowestBit, Shl, Xor, Half, Log2;
    ShiftedUnderXor(Xor(goHere, 1), viaHere, Log2(Half(viaHere)));
  }

  lemma SpliceOntoOne(goHere: bv64)
    requires Log2(goHere) <= 60
    ensures Splice(goHere, 1) == goHere
  {
    FlipTwice(goHere);
  }

  lemma FlipTwice(x: bv64)
    ensures Xor(Xor(x, 1), 1) == x
  {}

  // The path of a spliced label is the path of viaHere followed by that of goHere.
  lemma {:induction false} SpliceJoinsPaths(goHere: bv64, viaHere: bv64)
    requires goHere != 0 && viaHere != 0 && Log2(goHere) + Log2(viaHere) <= 60
    ensures Splice(goHere, viaHere) == FromPath(PathOf(viaHere) + PathOf(goHere))
    decreases viaHere
  {
    if Half(viaHere) == 0 {
      OnlyOneHalvesToZero(viaHere);
      hide Splice, Half, FromPath;
      SpliceOntoOne(goHere);
      LabelSurvives(goHere);
      assert PathOf(viaHere) + PathOf(goHere) == PathOf(goHere);
    } else {
      HalfIsSmaller(viaHere);
      hide PushBit, LowestBit, Splice, Half;
      SpliceBit(goHere, viaHere);
      SpliceJoinsPaths(goHere, Half(viaHere));
      var path := PathOf(viaHere) + PathOf(goHere);
      assert path[1..] == PathOf(Half(viaHere)) + PathOf(goHere);
    }
  }

  lemma PathOfSplice(goHere: bv64, viaHere: bv64)
    requires goHere != 0 && viaHere != 0 && Log2(goHere) + Log2(viaHere) <= 60
    ensures PathOf(Splice(goHere, viaHere)) == PathOf(viaHere) + PathOf(goHere)
    ensures Splice(goHere, viaHere) != 0
    ensures Log2(Splice(goHere, viaHere)) == Log2(goHere) + Log2(viaHere)
  {
    hide Splice;
    SpliceJoinsPaths(goHere, viaHere);
    PathSurvives(PathOf(viaHere) + PathOf(goHere));
    FromPathHasRoom(PathOf(viaHere) + PathOf(goHere));
  }

  // ------------------------------------------------------------- labels are a monoid

  lemma SpliceIsAssociative(a: bv64, b: bv64, c: bv64)
    requires a != 0 && b != 0 && c != 0
    requires Log2(a) + Log2(b) + Log2(c) <= 60
    ensures Splice(a, Splice(b, c)) == Splice(Splice(a, b), c)
  {
    hide *;
    PathOfSplice(b, c);
    PathOfSplice(a, b);
    SpliceJoinsPaths(a, Splice(b, c));
    SpliceJoinsPaths(Splice(a, b), c);
    PathsAssociate(PathOf(c), PathOf(b), PathOf(a));
  }

  lemma PathsAssociate(p: Path, q: Path, r: Path)
    ensures p + q + r == p + (q + r)
  {}

  lemma SpliceHasIdentity(a: bv64)
    requires a != 0 && Log2(a) <= 60
    ensures Splice(a, 1) == a && Splice(1, a) == a
    ensures Log2(1) == 0
  {
    hide Splice, FromPath;
    SpliceOntoOne(a);
    SpliceJoinsPaths(1, a);
    LabelSurvives(a);
    assert PathOf(a) + PathOf(1) == PathOf(a);
  }

  // Splicing succeeds, and the lengths add, exactly when the sum is at most 60.
  lemma SpliceFitsOrFails(goHere: bv64, viaHere: bv64)
    requires goHere != 0 && viaHere != 0
    ensures Splice(goHere, viaHere) != ALL_ONES <==> Log2(goHere) + Log2(viaHere) <= 60
    ensures Splice(goHere, viaHere) != ALL_ONES
      ==> Log2(Splice(goHere, viaHere)) == Log2(goHere) + Log2(viaHere)
  {
    if Log2(goHere) + Log2(viaHere) <= 60 {
      hide Splice, FromPath, PathOf;
      PathOfSplice(goHere, viaHere);
      SpliceJoinsPaths(goHere, viaHere);
      FromPathHasRoom(PathOf(viaHere) + PathOf(goHere));
    }
  }

  // -------------------------------------------------------------------- routesThrough

  lemma MaskStep(x: bv64, y: bv64, wide: bv64, m: bv64)
    requires wide == PushBit(m, 1) && Fits(m, TOP_CLEAR)
    ensures AgreeUnder(x, y, wide) <==> LowestBit(y) == LowestBit(x) && AgreeUnder(Half(x), Half(y), m)
  {
    hide *;
    if AgreeUnder(x, y, wide) {
      MaskNarrows(x, y, m);
    }
    if LowestBit(y) == LowestBit(x) && AgreeUnder(Half(x), Half(y), m) {
      MaskWidens(x, y, m);
    }
  }

  lemma Log2Step(x: bv64)
    requires Half(x) != 0
    ensures Log2(x) == Log2(Half(x)) + 1
  {}

  lemma MaskedStep(dest: bv64, mid: bv64)
    requires Half(mid) != 0 && Log2(mid) <= 64
    ensures AtMost(mid, dest) && AgreeUnder(dest, mid, Mask(Log2(mid)))
      <==> LowestBit(mid) == LowestBit(dest) && AtMost(Half(mid), Half(dest))
           && AgreeUnder(Half(dest), Half(mid), Mask(Log2(Half(mid))))
  {
    hide *;
    Log2Step(mid);
    var n := Log2(mid);
    MaskGrows(n);
    MaskStep(dest, mid, Mask(n), Mask(n - 1));
    if LowestBit(mid) == LowestBit(dest) {
      CompareStep(mid, dest);
    }
  }

  lemma PrefixStep(dest: bv64, mid: bv64)
    requires Half(mid) != 0
    ensures PathOf(mid) <= PathOf(dest)
      <==> LowestBit(mid) == LowestBit(dest) && Half(dest) != 0 && PathOf(Half(mid)) <= PathOf(Half(dest))
  {
    hide LowestBit, Half;
    if PathOf(mid) <= PathOf(dest) {
      assert PathOf(mid)[0] == PathOf(dest)[0];
      assert PathOf(mid)[1..] <= PathOf(dest)[1..];
    }
  }

  // Agreeing under the mask of midPath, and not being smaller, means having the
  // path of midPath as a beginning.
  lemma {:induction false} MaskedIsPrefix(dest: bv64, mid: bv64)
    requires mid != 0 && Log2(mid) <= 64
    ensures AtMost(mid, dest) && AgreeUnder(dest, mid, Mask(Log2(mid)))
      <==> dest != 0 && PathOf(mid) <= PathOf(dest)
    decreases mid
  {
    if Half(mid) == 0 {
      hide LowestBit, Mask, AgreeUnder, AtMost;
      OnlyOneHalvesToZero(mid);
      EmptyMask(dest);
    } else {
      HalfIsSmaller(mid);
      ZeroHalvesToZero(dest);
      Log2IsBounded(Half(mid));
      hide *;
      MaskedIsPrefix(Half(dest), Half(mid));
      MaskedStep(dest, mid);
      PrefixStep(dest, mid);
    }
  }

  lemma ZeroHalvesToZero(x: bv64)
    ensures Half(x) != 0 ==> x != 0
  {}

  lemma EmptyMask(dest: bv64)
    ensures AgreeUnder(dest, 1, Mask(0))
    ensures AtMost(1, dest) <==> dest != 0
  {
    MaskOfOneBit();
  }

  // Routing through a node means that the rest of the route, and only it, can be
  // spliced onto the route to that node.
  lemma RoutesThroughIsPrefix(dest: bv64, mid: bv64)
    requires mid > 1
    ensures RoutesThrough(dest, mid) <==> dest != 0 && PathOf(mid) <= PathOf(dest)
  {
    NotZero(mid);
    hide PathOf, AgreeUnder, AtMost, Mask;
    Log2IsBounded(mid);
    MaskedIsPrefix(dest, mid);
  }

  lemma NotZero(x: bv64)
    ensures x > 1 ==> x != 0
    ensures x == 0 <==> !(x >= 1)
  {}

  // The label of what follows the common beginning splices back to the whole.
  lemma RestOfRoute(dest: bv64, mid: bv64)
    requires mid != 0 && dest != 0 && Log2(dest) <= 60 && PathOf(mid) <= PathOf(dest)
    ensures var rest := FromPath(PathOf(dest)[Log2(mid)..]);
            rest != 0 && dest == Splice(rest, mid)
  {
    hide *;
    var tail := PathOf(dest)[Log2(mid)..];
    PathSurvives(tail);
    FromPathHasRoom(tail);
    SpliceJoinsPaths(FromPath(tail), mid);
    assert PathOf(mid) + tail == PathOf(dest);
    LabelSurvives(dest);
  }

  lemma AllOnesIsLong()
    ensures Log2(ALL_ONES) > 62 && ALL_ONES != 0
  {
    if Log2(ALL_ONES) <= 62 {
      LabelSurvives(ALL_ONES);
      FromPathHasRoom(PathOf(ALL_ONES));
      assert false;
    }
  }

  lemma RoutesThroughMeansSpliced(dest: bv64, mid: bv64)
    requires mid > 1 && Log2(dest) <= 60
    ensures RoutesThrough(dest, mid) <==> exists rest: bv64 :: rest != 0 && dest == Splice(rest, mid)
  {
    hide *;
    NotZero(mid);
    AllOnesIsLong();
    RoutesThroughIsPrefix(dest, mid);
    if RoutesThrough(dest, mid) {
      RestOfRoute(dest, mid);
    }
    forall rest: bv64 | rest != 0 && dest == Splice(rest, mid)
      ensures RoutesThrough(dest, mid)
    {
      SpliceFitsOrFails(rest, mid);
      PathOfSplice(rest, mid);
    }
  }

  // Which labels are splices onto midPath, for all labels: those of at most 60 bits that
  // route through it, and the value that stands for an overflow.  So routesThrough and
  // splice agree on a longer label exactly when that value is where it routes through.
  lemma SplicesExactly(dest: bv64, mid: bv64)
    requires mid > 1
    ensures (exists rest: bv64 :: rest != 0 && dest == Splice(rest, mid))
      <==> dest == ALL_ONES || (Log2(dest) <= 60 && RoutesThrough(dest, mid))
    ensures (RoutesThrough(dest, mid) <==> exists rest: bv64 :: rest != 0 && dest == Splice(rest, mid))
      <==> Log2(dest) <= 60 || (RoutesThrough(dest, mid) <==> dest == ALL_ONES)
  {
    hide *;
    NotZero(mid);
    AllOnesIsLong();
    if Log2(dest) <= 60 {
      RoutesThroughMeansSpliced(dest, mid);
    } else if dest == ALL_ONES {
      SpliceFitsOrFails(ALL_ONES, mid);
      assert dest == Splice(ALL_ONES, mid);
    } else {
      forall rest: bv64 | rest != 0
        ensures dest != Splice(rest, mid)
      {
        SpliceFitsOrFails(rest, mid);
      }
    }
  }

  // A family of routes that go through a node although no splice has their labels.
  lemma LongRoutesAreNotSplices(path: Path, cut: nat)
    requires 61 <= |path| <= 63 && 1 <= cut <= |path| && FromPath(path) != ALL_ONES
    ensures var dest, mid := FromPath(path), FromPath(path[..cut]);
            && mid > 1 && RoutesThrough(dest, mid)
            && forall rest: bv64 | rest != 0 :: dest != Splice(rest, mid)
  {
    hide *;
    var dest, mid := FromPath(path), FromPath(path[..cut]);
    PathSurvives(path);
    PathSurvives(path[..cut]);
    FromPathFits(path);
    FromPathFits(path[..cut]);
    PathIsLong(mid);
    RoutesThroughIsPrefix(dest, mid);
    SplicesExactly(dest, mid);
  }

  lemma PathIsLong(x: bv64)
    requires x != 0 && Log2(x) > 0
    ensures x > 1
  {}

  // ------------------------------------------------------------------ one hop labels

  // Whether the label leads no further than the interface it starts with.
  predicate IsOneHop(sch: Scheme, lab: bv64) {
    BitsUsedForLabel(sch, lab) == Log2(lab)
  }

  lemma {:induction false} Log2Down(x: bv64, k: nat)
    requires x != 0
    ensures Shr(x, k) != 0 ==> Log2(x) == Log2(Shr(x, k)) + k
    ensures Shr(x, k) == 0 ==> Log2(x) < k
  {
    hide Half, Log2;
    if k > 0 {
      Log2Down(x, k - 1);
      var y := Shr(x, k - 1);
      if y != 0 {
        Log2OfHalf(y);
      }
      HalfOfZero();
    }
  }

  lemma Log2OfHalf(x: bv64)
    ensures if Half(x) == 0 then Log2(x) == 0 else Log2(x) == Log2(Half(x)) + 1
  {}

  lemma OneIsAlone(x: bv64)
    requires x != 0
    ensures Log2(x) == 0 <==> x == 1
  {
    if Half(x) == 0 {
      OnlyOneHalvesToZero(x);
    }
  }

  // A label is one hop exactly when nothing but the marker is left after its code.
  lemma OneHopMeans(sch: Scheme, lab: bv64)
    requires lab != 0
    ensures IsOneHop(sch, lab) <==> Shr(lab, BitsUsedForLabel(sch, lab)) == 1
  {
    var bits := BitsUsedForLabel(sch, lab);
    hide Log2, Shr, BitsUsedForLabel;
    Log2Down(lab, bits);
    if Shr(lab, bits) != 0 {
      OneIsAlone(Shr(lab, bits));
    }
  }

  // ------------------------------------------------------------------- getLabelFor

  // The label without its first code, moved up to leave room for a wider one.
  function MakeRoom(target: bv64, from: nat, to: nat): bv64
    requires from <= to
  {
    Shl(Under(target, Shl(ALL_ONES, from)), to - from)
  }

  // The label for target as it is handed to the node at whoIsAsking: its first code
  // made at least as wide as the one the asking node's packets come in by.
  function GetLabelFor(sch: Scheme, target: bv64, whoIsAsking: bv64): bv64 {
    var targetBits := BitsUsedForLabel(sch, target);
    var askingBits := BitsUsedForLabel(sch, whoIsAsking);
    if targetBits >= askingBits then target
    else
      var number := GetDecompressed(sch, target, targetBits);
      Or(MakeRoom(target, targetBits, askingBits), GetCompressed(sch, number, askingBits))
  }

  lemma RestInPlace4(x: bv64)
    ensures Left(Right(x, 4), 4) == Under(x, 0xFFFF_FFFF_FFFF_FFF0)
  {}

  lemma RestInPlace7(x: bv64)
    ensures Left(Right(x, 7), 7) == Under(x, 0xFFFF_FFFF_FFFF_FF80)
  {}

  lemma MasksInPlace()
    ensures Left(ALL_ONES, 4) == 0xFFFF_FFFF_FFFF_FFF0 && Left(ALL_ONES, 7) == 0xFFFF_FFFF_FFFF_FF80
  {}

  // Masking the first code out and moving the rest up, to where the wider code ends,
  // is putting the wider code below the rest.
  lemma Widened(target: bv64, from: nat, to: nat, code: bv64)
    requires (from == 4 || from == 7) && from <= to
    ensures Or(MakeRoom(target, from, to), code) == Prepend(Shr(target, from), to, code)
  {
    MasksInPlace();
    hide Shr, Shl, Left, Right, Under, Or;
    ShrValues(target);
    ShlValues(Shr(target, from));
    ShlValues(ALL_ONES);
    if from == 4 {
      RestInPlace4(target);
    } else {
      RestInPlace7(target);
    }
    ShlTwice(Shr(target, from), from, to - from);
  }

  // Where the first code of target is too narrow, what is handed out is a wider code for
  // the same interface below the rest of target.
  lemma LabelForIs(sch: Scheme, target: bv64, whoIsAsking: bv64)
    requires BitsUsedForLabel(sch, target) < BitsUsedForLabel(sch, whoIsAsking)
    ensures var from, bits := BitsUsedForLabel(sch, target), BitsUsedForLabel(sch, whoIsAsking);
            var dest := GetDecompressed(sch, target, from);
            var code := GetCompressed(sch, dest, bits);
            && GetLabelFor(sch, target, whoIsAsking) == Prepend(Shr(target, from), bits, code)
            && Low(code, bits) == code && Low(GetLabelFor(sch, target, whoIsAsking), bits) == code
            && IsWidth(sch, bits) && IsInterface(sch, dest) && BitsUsedForNumber(sch, dest) <= bits
  {
    var from, bits := BitsUsedForLabel(sch, target), BitsUsedForLabel(sch, whoIsAsking);
    var dest := GetDecompressed(sch, target, from);
    var code := GetCompressed(sch, dest, bits);
    EveryLabelDecodes(sch, target);
    EveryLabelDecodes(sch, whoIsAsking);
    hide GetDecompressed, GetCompressed, Low, MakeRoom, Or, Prepend, Shr;
    Widened(target, from, bits, code);
    CodeFits(sch, dest, bits);
    PrependedCode(Shr(target, from), bits, code);
  }

  // The first code of the label that is handed out: for the same peer as before, and no
  // narrower than the one the packets of the asking node come in by.
  lemma LabelForNames(sch: Scheme, target: bv64, whoIsAsking: bv64)
    requires GetDecompressed(sch, target, BitsUsedForLabel(sch, target)) != ROUTER
    ensures var from, asking := BitsUsedForLabel(sch, target), BitsUsedForLabel(sch, whoIsAsking);
            CodeAt(sch, GetLabelFor(sch, target, whoIsAsking), GetDecompressed(sch, target, from),
                   if from >= asking then from else asking)
  {
    EveryLabelDecodes(sch, target);
    hide GetDecompressed, GetCompressed, Low, Prepend, Shr, Interfaces;
    var asking := BitsUsedForLabel(sch, whoIsAsking);
    if BitsUsedForLabel(sch, target) < asking {
      LabelForIs(sch, target, whoIsAsking);
      CodesArePrefixCode(sch, GetDecompressed(sch, target, BitsUsedForLabel(sch, target)), asking,
                         GetLabelFor(sch, target, whoIsAsking));
    }
  }

  // What the asking node's switch reads at the joint: the same interface as before,
  // in a code wide enough for any source that fits the asking node's own code.
  lemma JointIsNotDropped(sch: Scheme, target: bv64, whoIsAsking: bv64, source: bv64)
    requires IsInterface(sch, source)
    requires BitsUsedForNumber(sch, source) <= BitsUsedForLabel(sch, whoIsAsking)
    ensures var dest := GetDecompressed(sch, target, BitsUsedForLabel(sch, target));
            var verdict := Decide(sch, source, GetLabelFor(sch, target, whoIsAsking));
            verdict.Pass? && verdict.dest == dest
  {
    var targetBits := BitsUsedForLabel(sch, target);
    var askingBits := BitsUsedForLabel(sch, whoIsAsking);
    var dest := GetDecompressed(sch, target, targetBits);
    var lab := GetLabelFor(sch, target, whoIsAsking);
    EveryLabelDecodes(sch, target);
    if dest != ROUTER {
      hide GetDecompressed, GetCompressed, Low, CodeAt, BitsUsedForLabel, BitsUsedForNumber, Decide;
      LabelForNames(sch, target, whoIsAsking);
      PeerCodePasses(sch, source, lab, dest, if targetBits >= askingBits then targetBits else askingBits);
    } else if targetBits < askingBits {
      hide GetDecompressed, GetCompressed, Low, Decide, Prepend, Shr;
      LabelForIs(sch, target, whoIsAsking);
      RouterCodeIsOne(sch, askingBits);
      RouterCodePasses(sch, source, lab, askingBits);
    } else {
      hide GetDecompressed, GetCompressed, Low;
    }
  }
}
