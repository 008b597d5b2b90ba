// What a label makes a packet do: the switches consume its bits one code after the
// other, so labels that begin with the same bits take the same way.

module Routes {
  import opened Bits
  import opened LabelBits
  import opened NumberCompress
  import opened Switching
  import opened Journeys
  import opened Network
  import opened LabelSplicer

  // ---------------------------------------------------------------- low bits of a label

  lemma {:induction false} FewerLowBits(x: bv64, n: nat, m: nat)
    requires n <= m
    ensures LowBits(x, m)[..n] == LowBits(x, n)
    decreases n
  {
    hide LowestBit, Half;
    if n > 0 {
      FewerLowBits(Half(x), n - 1, m - 1);
    }
  }

  lemma OneBitLess(x: bv64, n: nat)
    ensures LowBits(Half(x), n) == LowBits(x, n + 1)[1..]
  {
    hide LowestBit, Half;
  }

  lemma OneShiftMore(x: bv64, k: nat)
    ensures Shr(x, k + 1) == Half(Shr(x, k))
  {}

  lemma {:induction false} LowBitsShifted(x: bv64, k: nat, n: nat)
    ensures LowBits(Shr(x, k), n) == LowBits(x, n + k)[k..]
    decreases k
  {
    if k == 0 {
      hide LowBits;
    } else {
      hide *;
      LowBitsShifted(x, k - 1, n + 1);
      OneShiftMore(x, k - 1);
      OneBitLess(Shr(x, k - 1), n);
    }
  }

  // y has no bit under the mask.
  predicate Clear(y: bv64, mask: bv64) {
    y & mask == 0
  }

  lemma HalfDistributes(x: bv64, y: bv64)
    ensures Half(Or(x, y)) == Or(Half(x), Half(y))
  {}

  lemma HalfStaysClear(y: bv64, m: bv64)
    requires Clear(y, PushBit(m, 1))
    ensures Fits(m, TOP_CLEAR) ==> Clear(Half(y), m)
  {}

  lemma LowestStays(x: bv64, y: bv64, m: bv64)
    requires Clear(y, PushBit(m, 1))
    ensures LowestBit(Or(x, y)) == LowestBit(x)
  {}

  // High bits do not show in the low ones.
  lemma {:induction false} HighBitsDoNotShow(x: bv64, y: bv64, n: nat)
    requires n <= 64 && Clear(y, Mask(n))
    ensures LowBits(Or(x, y), n) == LowBits(x, n)
    decreases n
  {
    hide LowestBit, Mask, Clear, PushBit, Or, Half;
    if n > 0 {
      MaskGrows(n);
      HalfDistributes(x, y);
      HalfStaysClear(y, Mask(n - 1));
      LowestStays(x, y, Mask(n - 1));
      HighBitsDoNotShow(Half(x), Half(y), n - 1);
    }
  }

  lemma MovedOut4(y: bv64)
    requires Left(y, 4) == 0
    ensures Clear(y, 0x0FFF_FFFF_FFFF_FFFF)
  {}

  lemma MovedOut7(y: bv64)
    requires Left(y, 7) == 0
    ensures Clear(y, 0x01FF_FFFF_FFFF_FFFF)
  {}

  lemma MovedOut8(y: bv64)
    requires Left(y, 8) == 0
    ensures Clear(y, 0x00FF_FFFF_FFFF_FFFF)
  {}

  lemma MovedOut10(y: bv64)
    requires Left(y, 10) == 0
    ensures Clear(y, 0x003F_FFFF_FFFF_FFFF)
  {}

  lemma MasksOfRests()
    ensures Mask(60) == 0x0FFF_FFFF_FFFF_FFFF && Mask(57) == 0x01FF_FFFF_FFFF_FFFF
    ensures Mask(56) == 0x00FF_FFFF_FFFF_FFFF && Mask(54) == 0x003F_FFFF_FFFF_FFFF
  {
    hide Shr;
    ShrValues(ALL_ONES);
  }

  // A reversed code occupies only the high end that its width moves out.
  lemma ReversedCodeIsHigh(code: bv64, bits: nat)
    requires bits == 4 || bits == 7 || bits == 8 || bits == 10
    requires Low(code, bits) == code
    ensures Clear(Reverse(code), Mask(64 - bits))
  {
    ZeroIsCode(bits);
    MasksOfRests();
    hide Low, Shr, Shl, Left, Reverse, Clear, Mask;
    PrependedCode(0, bits, code);
    ReversedRest(code, bits);
    ShlValues(Reverse(code));
    if bits == 4 {
      MovedOut4(Reverse(code));
    } else if bits == 7 {
      MovedOut7(Reverse(code));
    } else if bits == 8 {
      MovedOut8(Reverse(code));
    } else {
      MovedOut10(Reverse(code));
    }
  }

  // A switch takes the code off the low end of the label and moves everything else
  // down; the code it puts in at the high end is not among the bits that were there.
  lemma ShiftConsumesBits(lab: bv64, bits: nat, code: bv64)
    requires bits == 4 || bits == 7 || bits == 8 || bits == 10
    requires Low(code, bits) == code
    ensures LowBits(Shift(lab, bits, code), 64 - bits) == LowBits(lab, 64)[bits..]
  {
    ReversedCodeIsHigh(code, bits);
    hide Clear, Reverse, Shr, Low, Mask, LowBits, Or;
    HighBitsDoNotShow(Shr(lab, bits), Reverse(code), 64 - bits);
    LowBitsShifted(lab, bits, 64 - bits);
  }

  // --------------------------------------------------------- labels that begin alike

  predicate AgreeOn(x: bv64, y: bv64, n: nat) {
    LowBits(x, n) == LowBits(y, n)
  }

  lemma AgreeOnFewer(x: bv64, y: bv64, n: nat, m: nat)
    requires n <= m && AgreeOn(x, y, m)
    ensures AgreeOn(x, y, n)
  {
    hide LowBits;
    FewerLowBits(x, n, m);
    FewerLowBits(y, n, m);
  }

  lemma SameLowBits(x: bv64, y: bv64, n: nat)
    requires n > 0 && AgreeOn(x, y, n)
    ensures LowestBit(x) == LowestBit(y) && AgreeOn(Half(x), Half(y), n - 1)
  {
    hide LowestBit, Half;
    assert LowBits(x, n)[0] == LowBits(y, n)[0];
    assert LowBits(x, n)[1..] == LowBits(y, n)[1..];
  }

  lemma {:induction false} AgreeUnderMask(x: bv64, y: bv64, n: nat)
    requires n <= 64 && AgreeOn(x, y, n)
    ensures AgreeUnder(x, y, Mask(n))
    decreases n
  {
    if n == 0 {
      MaskOfOneBit();
    } else {
      hide *;
      SameLowBits(x, y, n);
      AgreeUnderMask(Half(x), Half(y), n - 1);
      MaskGrows(n);
      MaskStep(x, y, Mask(n), Mask(n - 1));
    }
  }

  lemma AgreeingCodes(x: bv64, y: bv64, bits: nat)
    requires bits == 4 || bits == 7 || bits == 8 || bits == 10
    requires AgreeOn(x, y, bits)
    ensures Low(x, bits) == Low(y, bits)
  {
    hide AgreeOn, Mask;
    AgreeUnderMask(x, y, bits);
  }

  // Labels that agree on their first code name the same interface.
  lemma SameCodeSameInterface(sch: Scheme, x: bv64, y: bv64)
    requires AgreeOn(x, y, BitsUsedForLabel(sch, x))
    ensures BitsUsedForLabel(sch, y) == BitsUsedForLabel(sch, x)
    ensures GetDecompressed(sch, y, BitsUsedForLabel(sch, x)) == GetDecompressed(sch, x, BitsUsedForLabel(sch, x))
  {
    var bits := BitsUsedForLabel(sch, x);
    var number := GetDecompressed(sch, x, bits);
    EveryLabelDecodes(sch, x);
    hide AgreeOn, GetDecompressed, GetCompressed, Low;
    AgreeingCodes(x, y, bits);
    if number == ROUTER {
      RouterNibble(x, y, bits);
      EveryLabelDecodes(sch, y);
    } else {
      CodesArePrefixCode(sch, number, bits, y);
    }
  }

  lemma RouterNibble(x: bv64, y: bv64, bits: nat)
    requires bits == 4 && Low(x, bits) == Low(y, bits)
    ensures x & 0xF == y & 0xF
  {
    hide Low;
    LowValue(x, 4);
    LowValue(y, 4);
  }

  lemma PeerBits(sch: Scheme, source: bv64, lab: bv64, dest: bv64, bits: nat)
    requires IsInterface(sch, source) && Decide(sch, source, lab) == Pass(dest, bits)
    requires dest != ROUTER
    ensures bits == BitsUsedForLabel(sch, lab) && dest == GetDecompressed(sch, lab, bits)
  {
    hide GetDecompressed, BitsUsedForLabel, BitsUsedForNumber, Low;
  }

  lemma SameDecision(sch: Scheme, source: bv64, x: bv64, y: bv64, dest: bv64, bits: nat)
    requires IsInterface(sch, source)
    requires Decide(sch, source, x) == Pass(dest, bits) && dest != ROUTER
    requires AgreeOn(x, y, bits)
    ensures Decide(sch, source, y) == Pass(dest, bits)
    ensures bits == BitsUsedForLabel(sch, x) == BitsUsedForLabel(sch, y)
  {
    PeerBits(sch, source, x, dest, bits);
    hide AgreeOn, GetDecompressed, BitsUsedForLabel, BitsUsedForNumber, Low;
    SameCodeSameInterface(sch, x, y);
  }

  lemma MiddleOf(p: Path, bits: nat, n: nat)
    requires bits <= n <= |p|
    ensures p[bits..][..n - bits] == p[..n][bits..]
  {}

  // What is left of labels that agree still agrees, on as many bits as were left.
  lemma ShiftedLabelsAgree(x: bv64, y: bv64, bits: nat, code: bv64, n: nat)
    requires bits == 4 || bits == 7 || bits == 8 || bits == 10
    requires Low(code, bits) == code && bits <= n <= 64 && AgreeOn(x, y, n)
    ensures AgreeOn(Shift(x, bits, code), Shift(y, bits, code), n - bits)
  {
    hide LowBits, Shift, Low;
    var sx, sy := Shift(x, bits, code), Shift(y, bits, code);
    ShiftConsumesBits(x, bits, code);
    ShiftConsumesBits(y, bits, code);
    FewerLowBits(sx, n - bits, 64 - bits);
    FewerLowBits(sy, n - bits, 64 - bits);
    FewerLowBits(x, n, 64);
    FewerLowBits(y, n, 64);
    MiddleOf(LowBits(x, 64), bits, n);
    MiddleOf(LowBits(y, 64), bits, n);
  }

  lemma SameBitsSameShift(sch: Scheme, source: bv64, x: bv64, y: bv64, dest: bv64, bits: nat, n: nat)
    requires IsInterface(sch, source) && n <= 64
    requires Decide(sch, source, x) == Pass(dest, bits) && dest != ROUTER
    requires BitsUsedForLabel(sch, x) <= n && AgreeOn(x, y, n)
    ensures bits == BitsUsedForLabel(sch, x) == BitsUsedForLabel(sch, y)
    ensures Decide(sch, source, y) == Pass(dest, bits)
    ensures var code := GetCompressed(sch, source, bits);
            AgreeOn(Shift(x, bits, code), Shift(y, bits, code), n - bits)
  {
    hide *;
    PassMeans(sch, source, x, dest, bits);
    WidthsAreFew(sch, bits);
    PeerBits(sch, source, x, dest, bits);
    AgreeOnFewer(x, y, bits, n);
    SameDecision(sch, source, x, y, dest, bits);
    CodeFits(sch, source, bits);
    ShiftedLabelsAgree(x, y, bits, GetCompressed(sch, source, bits), n);
  }

  lemma SameBitsSameHop(net: Network, at: Socket, x: bv64, y: bv64, n: nat)
    requires Switched(net, at, x).Forwarded? && Switched(net, at, x).dest != ROUTER
    requires BitsUsedForLabel(net.scheme(at.node), x) <= n <= 64 && AgreeOn(x, y, n)
    ensures var bits := BitsUsedForLabel(net.scheme(at.node), x);
            && BitsUsedForLabel(net.scheme(at.node), y) == bits
            && Switched(net, at, y).Forwarded?
            && Switched(net, at, y).dest == Switched(net, at, x).dest
            && AgreeOn(Switched(net, at, x).lab, Switched(net, at, y).lab, n - bits)
  {
    hide *;
    var dest, bits := SwitchedMeans(net, at, x);
    SameBitsSameShift(net.scheme(at.node), at.slot, x, y, dest, bits, n);
    SwitchedWhen(net, at, y, dest, bits);
  }

  lemma WidthsAreFew(sch: Scheme, bits: nat)
    requires IsWidth(sch, bits)
    ensures bits == 4 || bits == 7 || bits == 8 || bits == 10
  {}

  // ----------------------------------------------------------------- whole journeys

  // The bits of its label a packet used up on some hops between peers.
  function Consumed(net: Network, hops: seq<Hop<bv64, bv64>>): nat {
    if hops == [] then 0
    else
      BitsUsedForLabel(net.scheme(hops[0].packet.at.node), hops[0].packet.lab) + Consumed(net, hops[1..])
  }

  function Exits(hops: seq<Hop<bv64, bv64>>): (exits: seq<Socket>)
    ensures |exits| == |hops|
  {
    if hops == [] then [] else [hops[0].Exit()] + Exits(hops[1..])
  }

  predicate OnlyPeers(hops: seq<Hop<bv64, bv64>>) {
    forall i :: 0 <= i < |hops| ==> hops[i].dest != ROUTER
  }

  // Packets that set out from the same place with labels that begin alike take the
  // same way as long as the bits they agree on last.
  lemma {:induction false} SameBitsSameWay(net: Network, at: Socket, x: bv64, y: bv64, n: nat, ttl: nat)
    requires n <= 64 && AgreeOn(x, y, n)
    requires var hops := Travel(WorldOf(net), Packet(at, x), ttl);
             OnlyPeers(hops) && Consumed(net, hops) <= n
    ensures var hops := Travel(WorldOf(net), Packet(at, x), ttl);
            var same := Travel(WorldOf(net), Packet(at, y), |hops|);
            && Exits(same) == Exits(hops)
            && Consumed(net, same) == Consumed(net, hops)
            && (hops != [] ==>
                  AgreeOn(hops[|hops| - 1].lab, same[|hops| - 1].lab, n - Consumed(net, hops)))
    decreases ttl
  {
    hide Switched, AgreeOn, BitsUsedForLabel, Travel;
    var w := WorldOf(net);
    var hops := Travel(w, Packet(at, x), ttl);
    TravelUnfolds(w, Packet(at, x), ttl);
    TravelUnfolds(w, Packet(at, y), |hops|);
    if hops != [] {
      SameBitsSameHop(net, at, x, y, n);
      if |hops| > 1 {
        var next := w.links[hops[0].Exit()];
        assert hops[1..] == Travel(w, Packet(next, hops[0].lab), ttl - 1);
        TravelUnfolds(w, Packet(next, Switched(net, at, y).lab), |hops| - 1);
        SameBitsSameWay(net, next, hops[0].lab, Switched(net, at, y).lab,
                        n - BitsUsedForLabel(net.scheme(at.node), x), ttl - 1);
      }
    }
  }

  lemma DecidedShiftConsumesBits(sch: Scheme, source: bv64, lab: bv64, dest: bv64, bits: nat)
    requires IsInterface(sch, source)
    requires Decide(sch, source, lab) == Pass(dest, bits) && dest != ROUTER
    ensures bits == BitsUsedForLabel(sch, lab) && bits <= 64
    ensures LowBits(Shift(lab, bits, GetCompressed(sch, source, bits)), 64 - bits) == LowBits(lab, 64)[bits..]
  {
    hide *;
    PassMeans(sch, source, lab, dest, bits);
    WidthsAreFew(sch, bits);
    PeerBits(sch, source, lab, dest, bits);
    CodeFits(sch, source, bits);
    ShiftConsumesBits(lab, bits, GetCompressed(sch, source, bits));
  }

  lemma HopConsumesBits(net: Network, at: Socket, lab: bv64)
    requires Switched(net, at, lab).Forwarded? && Switched(net, at, lab).dest != ROUTER
    ensures var bits := BitsUsedForLabel(net.scheme(at.node), lab);
            && bits <= 64
            && LowBits(Switched(net, at, lab).lab, 64 - bits) == LowBits(lab, 64)[bits..]
  {
    hide *;
    var dest, bits := SwitchedMeans(net, at, lab);
    DecidedShiftConsumesBits(net.scheme(at.node), at.slot, lab, dest, bits);
  }

  // The label is a queue: after some hops its low end holds the bits the label had
  // from there on, untouched by the source codes that came in at the high end.
  lemma {:induction false} LabelIsQueue(net: Network, at: Socket, lab: bv64, ttl: nat, hops: seq<Hop<bv64, bv64>>)
    requires hops == Travel(WorldOf(net), Packet(at, lab), ttl) && hops != []
    requires OnlyPeers(hops) && Consumed(net, hops) <= 64
    ensures LowBits(hops[|hops| - 1].lab, 64 - Consumed(net, hops)) == LowBits(lab, 64)[Consumed(net, hops)..]
    decreases ttl
  {
    hide Switched, LowBits, BitsUsedForLabel, Travel;
    var w := WorldOf(net);
    TravelUnfolds(w, Packet(at, lab), ttl);
    var bits := BitsUsedForLabel(net.scheme(at.node), lab);
    HopConsumesBits(net, at, lab);
    if |hops| > 1 {
      var rest := hops[1..];
      LabelIsQueue(net, w.links[hops[0].Exit()], hops[0].lab, ttl - 1, rest);
      QueueTwice(lab, hops[0].lab, bits, Consumed(net, rest));
      FewerLowBits(hops[|hops| - 1].lab, 64 - Consumed(net, hops), 64 - Consumed(net, rest));
    }
  }

  lemma QueueTwice(x: bv64, y: bv64, j: nat, k: nat)
    requires j + k <= 64
    requires LowBits(y, 64 - j) == LowBits(x, 64)[j..]
    ensures LowBits(y, 64)[k..][..64 - j - k] == LowBits(x, 64)[j + k..]
  {
    hide LowBits;
    FewerLowBits(y, 64 - j, 64);
    assert LowBits(y, 64)[k..][..64 - j - k] == LowBits(y, 64)[..64 - j][k..];
  }

  // ------------------------------------------------------------------ spliced routes

  lemma SpliceAgrees(goHere: bv64, viaHere: bv64)
    requires goHere != 0 && viaHere != 0 && Log2(goHere) + Log2(viaHere) <= 60
    ensures AgreeOn(viaHere, Splice(goHere, viaHere), Log2(viaHere))
    ensures LowBits(Splice(goHere, viaHere), 64)[Log2(viaHere)..] == LowBits(goHere, 64 - Log2(viaHere))
  {
    hide *;
    var both := Splice(goHere, viaHere);
    var n := Log2(viaHere);
    PathOfSplice(goHere, viaHere);
    PathThenMarker(both, 64);
    PathThenMarker(goHere, 64 - n);
    PathThenMarker(viaHere, n);
    FewerLowBits(both, n, 64);
    var tail := LowBits(1, 64 - Log2(both));
    PathsAssociate(PathOf(viaHere), PathOf(goHere), tail);
    PathThenNothing(PathOf(viaHere));
    SameBitsAgree(viaHere, both, n);
  }

  lemma PathThenNothing(p: Path)
    ensures p + LowBits(1, 0) == p
  {}

  // The hops use up exactly the path of the label they started with.
  ghost predicate UsesUp(net: Network, hops: seq<Hop<bv64, bv64>>, lab: bv64) {
    hops != [] && OnlyPeers(hops) && Consumed(net, hops) == Log2(lab)
  }

  lemma UsesUpMeans(net: Network, hops: seq<Hop<bv64, bv64>>, lab: bv64)
    requires UsesUp(net, hops, lab)
    ensures hops != [] && OnlyPeers(hops) && Consumed(net, hops) == Log2(lab)
  {
    hide BitsUsedForLabel;
  }

  // A label y that begins with all the bits a packet labelled x uses up takes the
  // same way, and then holds what it has beyond those bits.
  lemma BeginsAlike(net: Network, at: Socket, x: bv64, y: bv64, n: nat, ttl: nat,
                    hops: seq<Hop<bv64, bv64>>, same: seq<Hop<bv64, bv64>>)
    requires n <= 64 && AgreeOn(x, y, n)
    requires hops == Travel(WorldOf(net), Packet(at, x), ttl) && hops != []
    requires OnlyPeers(hops) && Consumed(net, hops) == n
    requires same == Travel(WorldOf(net), Packet(at, y), |hops|)
    ensures Exits(same) == Exits(hops) && |same| == |hops| && Consumed(net, same) == n
    ensures LowBits(same[|same| - 1].lab, 64 - n) == LowBits(y, 64)[n..]
  {
    hide *;
    SameBitsSameWay(net, at, x, y, n, ttl);
    ExitsArePeers(same, hops);
    LabelIsQueue(net, at, y, |hops|, same);
  }

  // Splicing routes.  Where a packet labelled viaHere makes some hops that use up its
  // path, a packet labelled splice(goHere, viaHere) makes the same hops, and then
  // its label begins like goHere.
  lemma SpliceFollowsVia(net: Network, at: Socket, goHere: bv64, viaHere: bv64, ttl: nat,
                         via: seq<Hop<bv64, bv64>>, both: seq<Hop<bv64, bv64>>)
    requires goHere != 0 && viaHere != 0 && Log2(goHere) + Log2(viaHere) <= 60
    requires via == Travel(WorldOf(net), Packet(at, viaHere), ttl) && UsesUp(net, via, viaHere)
    requires both == Travel(WorldOf(net), Packet(at, Splice(goHere, viaHere)), |via|)
    ensures Exits(both) == Exits(via) && |both| == |via| > 0 && Consumed(net, both) == Log2(viaHere)
    ensures AgreeOn(goHere, both[|both| - 1].lab, 64 - Log2(viaHere))
  {
    hide *;
    UsesUpMeans(net, via, viaHere);
    SpliceAgrees(goHere, viaHere);
    BeginsAlike(net, at, viaHere, Splice(goHere, viaHere), Log2(viaHere), ttl, via, both);
    SameBitsAgree(goHere, both[|both| - 1].lab, 64 - Log2(viaHere));
  }

  lemma SameBitsAgree(x: bv64, y: bv64, n: nat)
    requires LowBits(y, n) == LowBits(x, n)
    ensures AgreeOn(x, y, n)
  {
    hide LowBits;
  }

  lemma {:induction false} ExitsArePeers(some: seq<Hop<bv64, bv64>>, others: seq<Hop<bv64, bv64>>)
    requires Exits(some) == Exits(others) && OnlyPeers(others)
    ensures OnlyPeers(some) && |some| == |others|
  {
    assert |Exits(some)| == |Exits(others)|;
    if some != [] {
      assert Exits(some)[0] == Exits(others)[0];
      assert Exits(some)[1..] == Exits(others)[1..];
      ExitsArePeers(some[1..], others[1..]);
      assert forall i :: 0 < i < |some| ==> some[i] == some[1..][i - 1];
    }
  }

  lemma SameExitsFrom(net: Network, q: Packet<bv64, bv64>, x: bv64, bits: nat, more: nat, after: seq<Hop<bv64, bv64>>)
    requires bits <= 64 && AgreeOn(x, q.lab, bits)
    requires after == Travel(WorldOf(net), Packet(q.at, x), more) && OnlyPeers(after) && Consumed(net, after) <= bits
    ensures Exits(Travel(WorldOf(net), q, |after|)) == Exits(after)
    ensures Consumed(net, Travel(WorldOf(net), q, |after|)) == Consumed(net, after)
  {
    hide *;
    SameBitsSameWay(net, q.at, x, q.lab, bits, more);
    assert Packet(q.at, q.lab) == q;
  }

  lemma WorldLinks(net: Network)
    ensures WorldOf(net).links == net.links
  {}

  lemma JourneyContinues(net: Network, p: Packet<bv64, bv64>, n: nat, q: Packet<bv64, bv64>, m: nat,
                         first: seq<Hop<bv64, bv64>>)
    requires first == Travel(WorldOf(net), p, n) && |first| == n > 0
    requires first[n - 1].Exit() in net.links && q == Packet(net.links[first[n - 1].Exit()], first[n - 1].lab)
    ensures Travel(WorldOf(net), p, n + m) == first + Travel(WorldOf(net), q, m)
  {
    hide *;
    WorldLinks(net);
    TravelExtends(WorldOf(net), p, n, q, m);
  }

  // A journey whose label at some point begins like another's continues like it.
  lemma ContinuesAlike(net: Network, p: Packet<bv64, bv64>, n: nat, q: Packet<bv64, bv64>,
      x: bv64, bits: nat, more: nat, first: seq<Hop<bv64, bv64>>, after: seq<Hop<bv64, bv64>>)
    requires first == Travel(WorldOf(net), p, n) && |first| == n > 0
    requires first[n - 1].Exit() in net.links && q == Packet(net.links[first[n - 1].Exit()], first[n - 1].lab)
    requires bits <= 64 && AgreeOn(x, q.lab, bits)
    requires after == Travel(WorldOf(net), Packet(q.at, x), more) && OnlyPeers(after) && Consumed(net, after) <= bits
    ensures Exits(Travel(WorldOf(net), p, n + |after|)) == Exits(first) + Exits(after)
    ensures Consumed(net, Travel(WorldOf(net), p, n + |after|)) == Consumed(net, first) + Consumed(net, after)
  {
    hide *;
    SameExitsFrom(net, q, x, bits, more, after);
    JourneyContinues(net, p, n, q, |after|, first);
    ExitsOfBoth(first, Travel(WorldOf(net), q, |after|));
    ConsumedByBoth(net, first, Travel(WorldOf(net), q, |after|));
  }

  // ... and from there it makes the hops that a packet labelled goHere would make.
  lemma SpliceContinuesAsGo(net: Network, at: Socket, goHere: bv64, viaHere: bv64, ttl: nat, next: Socket, more: nat,
                            via: seq<Hop<bv64, bv64>>, go: seq<Hop<bv64, bv64>>)
    requires goHere != 0 && viaHere != 0 && Log2(goHere) + Log2(viaHere) <= 60
    requires via == Travel(WorldOf(net), Packet(at, viaHere), ttl) && UsesUp(net, via, viaHere)
    requires via != [] && via[|via| - 1].Exit() in net.links && net.links[via[|via| - 1].Exit()] == next
    requires go == Travel(WorldOf(net), Packet(next, goHere), more)
    requires OnlyPeers(go) && Consumed(net, go) <= 64 - Log2(viaHere)
    ensures var whole := Travel(WorldOf(net), Packet(at, Splice(goHere, viaHere)), |via| + |go|);
            Exits(whole) == Exits(via) + Exits(go) && Consumed(net, whole) == Log2(viaHere) + Consumed(net, go)
  {
    hide *;
    var p := Packet(at, Splice(goHere, viaHere));
    var both := Travel(WorldOf(net), p, |via|);
    SpliceFollowsVia(net, at, goHere, viaHere, ttl, via, both);
    LastExit(both, via);
    ContinuesAlike(net, p, |via|, Packet(next, both[|both| - 1].lab), goHere, 64 - Log2(viaHere), more, both, go);
  }

  lemma {:induction false} LastExit(some: seq<Hop<bv64, bv64>>, others: seq<Hop<bv64, bv64>>)
    requires Exits(some) == Exits(others) && some != [] && |some| == |others|
    ensures some[|some| - 1].Exit() == others[|others| - 1].Exit()
  {
    assert Exits(some)[0] == Exits(others)[0];
    if |some| > 1 {
      assert Exits(some)[1..] == Exits(others)[1..];
      LastExit(some[1..], others[1..]);
    }
  }

  lemma {:induction false} ExitsOfBoth(first: seq<Hop<bv64, bv64>>, second: seq<Hop<bv64, bv64>>)
    ensures Exits(first + second) == Exits(first) + Exits(second)
  {
    if first == [] {
      assert first + second == second;
      assert Exits(first) + Exits(second) == Exits(second);
    } else {
      var all := first + second;
      assert all[0] == first[0] && all[1..] == first[1..] + second;
      ExitsOfBoth(first[1..], second);
      var exit := [first[0].Exit()];
      assert exit + (Exits(first[1..]) + Exits(second)) == exit + Exits(first[1..]) + Exits(second);
    }
  }

  lemma {:induction false} ConsumedByBoth(net: Network, first: seq<Hop<bv64, bv64>>, second: seq<Hop<bv64, bv64>>)
    ensures Consumed(net, first + second) == Consumed(net, first) + Consumed(net, second)
  {
    hide BitsUsedForLabel;
    if first == [] {
      assert first + second == second;
    } else {
      ConsumedByBoth(net, first[1..], second);
      assert (first + second)[1..] == first[1..] + second;
    }
  }
}
