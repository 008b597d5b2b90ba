// Where routes end: when a packet whose route is used up gets to the router it is for,
// and what a label that was adapted for another node does.

module Deliveries {
  import opened Bits
  import opened LabelBits
  import opened NumberCompress
  import opened Switching
  import opened Journeys
  import opened Network
  import opened LabelSplicer
  import opened Routes

  // --------------------------------------------------- what is above a used up label

  lemma TopBitOfReversedOne(x: bv64)
    ensures !Fits(Or(x, Reverse(1)), TOP_CLEAR) && Or(x, Reverse(1)) != 0
  {}

  lemma OneIsReversedHigh()
    ensures Clear(Reverse(1), TOP_CLEAR) && Half(ALL_ONES) == TOP_CLEAR
  {}

  // A label with its top bit set has 63 bits below its marker.
  lemma TopBitIsMarker(x: bv64)
    requires x != 0 && !Fits(x, TOP_CLEAR)
    ensures Log2(x) == 63
  {
    hide FromPath, PathOf, Log2;
    Log2IsBounded(x);
    if Log2(x) <= 62 {
      LabelSurvives(x);
      FromPathHasRoom(PathOf(x));
      assert false;
    }
  }

  // The router's code, put in at the high end, is one bit at the very top.
  lemma RouterCodeOnTop(lab: bv64, bits: nat)
    ensures LowBits(Shift(lab, bits, 1), 63) == LowBits(lab, 63 + bits)[bits..]
    ensures LowBits(Shift(lab, bits, 1), 64)[63] == 1
  {
    var rest, sent := Shr(lab, bits), Shift(lab, bits, 1);
    TopBitOfReversedOne(rest);
    OneIsReversedHigh();
    MaskOfRouterCode();
    hide LowBits, Shr, Or, Reverse, Fits, Clear, Mask, PathOf, Log2, Half;
    HighBitsDoNotShow(rest, Reverse(1), 63);
    LowBitsShifted(lab, bits, 63);
    TopBitIsMarker(sent);
    PathThenMarker(sent, 64);
    OneBit();
  }

  lemma MaskOfRouterCode()
    ensures Mask(63) == Half(ALL_ONES)
  {
    ShrNext(ALL_ONES, 0, ALL_ONES);
  }

  lemma OneBit()
    ensures LowBits(1, 1) == [1]
  {}

  // A label that agrees with 1 on exactly this many bits has nothing but the discriminator
  // in its low end for exactly the codes that are not wider.
  lemma DiscriminatorHasRoom(lab: bv64, room: nat, bits: nat)
    requires bits == 4 || bits == 7 || bits == 8 || bits == 10
    requires 0 < room < 64 && AgreeOn(lab, 1, room) && LowBits(lab, room + 1)[room] == 1
    ensures Low(lab, bits) == 1 <==> bits <= room
  {
    OneFits(bits);
    hide LowBits, Low;
    if bits <= room {
      AgreeOnFewer(lab, 1, bits, room);
      AgreeingCodes(lab, 1, bits);
    } else if Low(lab, bits) == 1 {
      SameLowEnd(lab, 1, bits);
      FewerLowBits(lab, room + 1, bits);
      MarkerAlone(bits, room);
      assert false;
    }
  }

  // Labels with the same bits under a mask are labels that agree on those bits.
  lemma {:induction false} AgreeOnMasked(x: bv64, y: bv64, n: nat)
    requires n <= 64 && AgreeUnder(x, y, Mask(n))
    ensures AgreeOn(x, y, n)
    decreases n
  {
    hide LowestBit, Half, AgreeUnder, Mask;
    if n > 0 {
      MaskGrows(n);
      MaskStep(x, y, Mask(n), Mask(n - 1));
      AgreeOnMasked(Half(x), Half(y), n - 1);
    }
  }

  lemma SameLowEnd(x: bv64, y: bv64, bits: nat)
    requires bits <= 64 && Low(x, bits) == Low(y, bits)
    ensures AgreeOn(x, y, bits)
  {
    hide AgreeOn, Mask;
    AgreeOnMasked(x, y, bits);
  }

  lemma AllBitsCount(x: bv64, y: bv64)
    requires AgreeUnder(x, y, ALL_ONES)
    ensures x == y
  {}

  lemma AllBitsAgree(x: bv64, y: bv64)
    requires AgreeOn(x, y, 64)
    ensures x == y
  {
    assert Mask(64) == ALL_ONES;
    hide AgreeOn, AgreeUnder, Mask;
    AgreeUnderMask(x, y, 64);
    AllBitsCount(x, y);
  }

  // A router's packet leaves its node with that router's code on top.
  lemma FirstHop(net: Network, node: nat, lab: bv64, ttl: nat, hops: seq<Hop<bv64, bv64>>)
    requires hops == Journey(net, node, lab, ttl) && hops != []
    ensures var bits := BitsUsedForLabel(net.scheme(node), lab);
            && bits <= 64 && hops[0].lab == Shift(lab, bits, 1)
            && hops[0].dest == GetDecompressed(net.scheme(node), lab, bits)
            && hops[0].packet == Packet(End(node, ROUTER), lab)
            && Consumed(net, hops) == bits + Consumed(net, hops[1..])
    ensures hops[1..] != [] ==>
              && hops[0].Exit() in net.links
              && hops[1..] == Travel(WorldOf(net), Packet(net.links[hops[0].Exit()], hops[0].lab), ttl - 1)
  {
    var at := End(node, ROUTER);
    TravelUnfolds(WorldOf(net), Packet(at, lab), ttl);
    hide BitsUsedForLabel, GetDecompressed, Shift, Travel, GetCompressed, Decide, Switched;
    var dest, bits := SwitchedMeans(net, at, lab);
    RouterPassMeans(net.scheme(node), lab, dest, bits);
    RouterCodeIsOne(net.scheme(node), bits);
  }

  lemma QueueAfterFirst(net: Network, node: nat, lab: bv64, ttl: nat, hops: seq<Hop<bv64, bv64>>)
    requires hops == Journey(net, node, lab, ttl) && hops != [] && OnlyPeers(hops) && Consumed(net, hops) <= 64
    ensures var bits := BitsUsedForLabel(net.scheme(node), lab);
            var others := Consumed(net, hops) - bits;
            && others >= 0
            && LowBits(hops[|hops| - 1].lab, 64 - others) == LowBits(Shift(lab, bits, 1), 64)[others..]
  {
    hide *;
    WorldLinks(net);
    NothingConsumed(net);
    PeersAfterFirst(hops);
    FirstHop(net, node, lab, ttl, hops);
    var rest := hops[1..];
    if rest != [] {
      assert rest[|rest| - 1] == hops[|hops| - 1];
      LabelIsQueue(net, net.links[hops[0].Exit()], hops[0].lab, ttl - 1, rest);
    } else {
      FromTheStart(LowBits(hops[0].lab, 64));
    }
  }

  lemma FromTheStart(path: Path)
    ensures path[0..] == path
  {}

  lemma PeersAfterFirst(hops: seq<Hop<bv64, bv64>>)
    requires OnlyPeers(hops) && hops != []
    ensures OnlyPeers(hops[1..])
  {}

  lemma NothingConsumed(net: Network)
    ensures Consumed(net, []) == 0
  {}

  lemma BitsAfterFirst(lab: bv64, bits: nat, last: bv64)
    requires lab != 0 && 1 <= bits <= Log2(lab) <= 63
    requires LowBits(last, 64 + bits - Log2(lab)) == LowBits(Shift(lab, bits, 1), 64)[Log2(lab) - bits..]
    ensures var room := 63 - Log2(lab) + bits;
            AgreeOn(last, 1, room) && LowBits(last, room + 1)[room] == 1
  {
    hide Shift, LowBits, Log2, PathOf;
    var n, first := Log2(lab), Shift(lab, bits, 1);
    RouterCodeOnTop(lab, bits);
    FewerLowBits(last, 63 + bits - n, 64 + bits - n);
    MiddleOf(LowBits(first, 64), n - bits, 63);
    FewerLowBits(first, 63, 64);
    PathThenMarker(lab, 63 + bits);
    assert LowBits(lab, 63 + bits)[bits..][n - bits..] == LowBits(lab, 63 + bits)[n..];
  }

  // Where the path of a router's packet is used up, its label is the marker, zeros, and
  // the code of that router: so many bits agree with 1, and no more.
  lemma UsedUpLabel(net: Network, node: nat, lab: bv64, ttl: nat, hops: seq<Hop<bv64, bv64>>)
    requires lab != 0
    requires hops == Journey(net, node, lab, ttl) && UsesUp(net, hops, lab)
    ensures var last := hops[|hops| - 1].lab;
            var room := 63 - Log2(lab) + BitsUsedForLabel(net.scheme(node), lab);
            && 4 <= room < 64
            && AgreeOn(last, 1, room) && LowBits(last, room + 1)[room] == 1
  {
    hide *;
    var bits := BitsUsedForLabel(net.scheme(node), lab);
    WidthsOfLabels(net.scheme(node), lab);
    UsesUpMeans(net, hops, lab);
    Log2IsBounded(lab);
    QueueAfterFirst(net, node, lab, ttl, hops);
    BitsAfterFirst(lab, bits, hops[|hops| - 1].lab);
  }

  // Delivery.  Where the path of a router's packet is used up, the next switch hands it to
  // its own router exactly when the code of the slot it came in by fits into the zeros
  // between the marker and the code of the sending router; otherwise it answers with an
  // error.
  lemma UsedUpLabelIsDelivered(net: Network, node: nat, lab: bv64, ttl: nat, hops: seq<Hop<bv64, bv64>>, at: Socket)
    requires WellFormed(net) && lab != 0
    requires hops == Journey(net, node, lab, ttl) && UsesUp(net, hops, lab)
    requires at in net.links && at.node in net.routers
    ensures var last := hops[|hops| - 1].lab;
            var room := 63 - Log2(lab) + BitsUsedForLabel(net.scheme(node), lab);
            if BitsUsedForNumber(net.scheme(at.node), at.slot) <= room then
              Switched(net, at, last).Forwarded? && Switched(net, at, last).dest == ROUTER
            else Received(net, at, last) == Returned(NoReturnPath, Reverse(last))
  {
    hide *;
    UsesUpMeans(net, hops, lab);
    UsedUpLabel(net, node, lab, ttl, hops);
    AtTheMarker(net, at, hops[|hops| - 1].lab, 63 - Log2(lab) + BitsUsedForLabel(net.scheme(node), lab));
  }

  // What a switch with a router does with a label of which that much agrees with 1.
  lemma AtTheMarker(net: Network, at: Socket, lab: bv64, room: nat)
    requires WellFormed(net) && at in net.links && at.node in net.routers
    requires 4 <= room < 64 && AgreeOn(lab, 1, room) && LowBits(lab, room + 1)[room] == 1
    ensures if BitsUsedForNumber(net.scheme(at.node), at.slot) <= room then
              Switched(net, at, lab).Forwarded? && Switched(net, at, lab).dest == ROUTER
            else Received(net, at, lab) == Returned(NoReturnPath, Reverse(lab))
  {
    var sch := net.scheme(at.node);
    var sourceBits := BitsUsedForNumber(sch, at.slot);
    WidthsOfNumbers(sch, at.slot);
    hide BitsUsedForLabel, BitsUsedForNumber, LowBits, Shift, Reverse, GetDecompressed, Low, GetCompressed,
      HasOnlyDiscriminator;
    DiscriminatorHasRoom(lab, room, sourceBits);
    OnlyDiscriminator(lab, sourceBits);
    AgreeOnFewer(lab, 1, 4, room);
    MarkerRead(lab, 4);
    EveryLabelDecodes(sch, lab);
  }

  lemma MarkerRead(lab: bv64, n: nat)
    requires n >= 4 && AgreeOn(lab, 1, n)
    ensures lab & 0xF == 1
  {
    hide LowBits, AgreeOn;
    AgreeOnFewer(lab, 1, 4, n);
    AgreeingCodes(lab, 1, 4);
    RouterNibble(lab, 1, 4);
  }

  lemma WidthsOfLabels(sch: Scheme, lab: bv64)
    ensures 4 <= BitsUsedForLabel(sch, lab) <= 10
  {}

  lemma WidthsOfNumbers(sch: Scheme, number: bv64)
    ensures var bits := BitsUsedForNumber(sch, number);
            bits == 4 || bits == 7 || bits == 8 || bits == 10
  {}

  // ------------------------------------------------------------ spliced routes, whole

  function Delivery(net: Network, at: Socket, room: nat): seq<Socket> {
    if BitsUsedForNumber(net.scheme(at.node), at.slot) <= room then [End(at.node, ROUTER)] else []
  }

  lemma NoOrOneHop(net: Network, q: Packet<bv64, bv64>)
    ensures Travel(WorldOf(net), q, 1) ==
      if Switched(net, q.at, q.lab).Refused? then []
      else [Hop(q, Switched(net, q.at, q.lab).dest, Switched(net, q.at, q.lab).lab)]
  {
    TravelUnfolds(WorldOf(net), q, 1);
    hide Switched;
  }

  lemma ExitsOfOne(hop: Hop<bv64, bv64>)
    ensures Exits([hop]) == [End(hop.packet.at.node, hop.dest)]
  {}

  lemma DeliveryAtTheEnd(net: Network, node: nat, lab: bv64, n: nat, hops: seq<Hop<bv64, bv64>>, at: Socket)
    requires WellFormed(net) && lab != 0
    requires hops == Journey(net, node, lab, n) && |hops| == n && UsesUp(net, hops, lab)
    requires hops != [] && hops[n - 1].Exit() in net.links && at == net.links[hops[n - 1].Exit()]
    requires at in net.links && at.node in net.routers
    ensures var room := 63 - Log2(lab) + BitsUsedForLabel(net.scheme(node), lab);
            room >= 0 && Exits(Journey(net, node, lab, n + 1)) == Exits(hops) + Delivery(net, at, room)
  {
    hide *;
    var q := Packet(at, hops[n - 1].lab);
    var room := 63 - Log2(lab) + BitsUsedForLabel(net.scheme(node), lab);
    Log2IsBounded(lab);
    JourneyIsTravel(net, node, lab, n);
    JourneyIsTravel(net, node, lab, n + 1);
    JourneyContinues(net, Packet(End(node, ROUTER), lab), n, q, 1, hops);
    NoOrOneHop(net, q);
    ExitsOfBoth(hops, Travel(WorldOf(net), q, 1));
    UsedUpLabelIsDelivered(net, node, lab, n, hops, at);
    ReceivedIsSwitched(net, at, q.lab);
    DeliveryIs(net, at, room);
    if BitsUsedForNumber(net.scheme(at.node), at.slot) <= room {
      var hop := Hop(q, Switched(net, at, q.lab).dest, Switched(net, at, q.lab).lab);
      ExitsOfOne(hop);
    } else {
      NoExits();
      assert hops + [] == hops;
    }
  }

  lemma NoExits()
    ensures Exits([]) == []
  {}

  lemma DeliveryIs(net: Network, at: Socket, room: nat)
    ensures BitsUsedForNumber(net.scheme(at.node), at.slot) <= room
            ==> Delivery(net, at, room) == [End(at.node, ROUTER)]
    ensures BitsUsedForNumber(net.scheme(at.node), at.slot) > room ==> Delivery(net, at, room) == []
  {
    hide BitsUsedForNumber;
  }

  lemma ReceivedIsSwitched(net: Network, at: Socket, lab: bv64)
    ensures Received(net, at, lab).Returned? <==> Switched(net, at, lab).Refused?
  {
    hide Received;
  }

  lemma SpliceStartsAsVia(sch: Scheme, goHere: bv64, viaHere: bv64)
    requires goHere != 0 && viaHere != 0 && Log2(goHere) + Log2(viaHere) <= 60
    requires BitsUsedForLabel(sch, viaHere) <= Log2(viaHere)
    ensures BitsUsedForLabel(sch, Splice(goHere, viaHere)) == BitsUsedForLabel(sch, viaHere)
  {
    hide *;
    SpliceAgrees(goHere, viaHere);
    AgreeOnFewer(viaHere, Splice(goHere, viaHere), BitsUsedForLabel(sch, viaHere), Log2(viaHere));
    SameCodeSameInterface(sch, viaHere, Splice(goHere, viaHere));
  }

  lemma LastOfBoth(hops: seq<Hop<bv64, bv64>>, way: seq<Socket>)
    requires Exits(hops) == way && way != []
    ensures |hops| == |way| && hops[|hops| - 1].Exit() == way[|way| - 1]
  {
    ExitAt(hops, |hops| - 1);
  }

  lemma {:induction false} ExitAt(hops: seq<Hop<bv64, bv64>>, i: nat)
    requires i < |hops|
    ensures Exits(hops)[i] == hops[i].Exit()
  {
    if i > 0 {
      ExitAt(hops[1..], i - 1);
    }
  }

  lemma JourneyIsTravel(net: Network, node: nat, lab: bv64, ttl: nat)
    ensures Journey(net, node, lab, ttl) == Travel(WorldOf(net), Packet(End(node, ROUTER), lab), ttl)
  {}

  lemma LinkedBack(net: Network, exit: Socket)
    requires WellFormed(net) && exit in net.links
    ensures net.links[exit] in net.links
  {}

  lemma ViaUsesFirstCode(net: Network, node: nat, lab: bv64, ttl: nat, hops: seq<Hop<bv64, bv64>>)
    requires hops == Journey(net, node, lab, ttl) && UsesUp(net, hops, lab)
    ensures BitsUsedForLabel(net.scheme(node), lab) <= Log2(lab)
  {
    hide *;
    UsesUpMeans(net, hops, lab);
    FirstHop(net, node, lab, ttl, hops);
  }

  lemma WayUsesUp(net: Network, whole: seq<Hop<bv64, bv64>>, via: seq<Hop<bv64, bv64>>,
      go: seq<Hop<bv64, bv64>>, lab: bv64)
    requires Exits(whole) == Exits(via) + Exits(go) && via != [] && OnlyPeers(via) && OnlyPeers(go)
    requires Consumed(net, whole) == Log2(lab)
    ensures UsesUp(net, whole, lab)
  {
    hide Exits, Consumed, Log2;
    ExitsOfBoth(via, go);
    assert OnlyPeers(via + go);
    ExitsArePeers(whole, via + go);
  }

  // Splicing up to delivery.  A router sends a packet with the splice of two labels, the
  // first of which uses up its path on the way to next, and the second on the way from
  // there to the slot at.  The packet makes all those hops, and one more, into the router
  // at the end, exactly when the zeros that are left make room for the code of that slot.
  lemma SpliceIsDelivered(net: Network, node: nat, goHere: bv64, viaHere: bv64, ttl: nat, next: Socket, more: nat,
                          via: seq<Hop<bv64, bv64>>, go: seq<Hop<bv64, bv64>>, way: seq<Socket>, at: Socket)
    requires WellFormed(net) && goHere != 0 && viaHere != 0 && Log2(goHere) + Log2(viaHere) <= 60
    requires via == Journey(net, node, viaHere, ttl) && UsesUp(net, via, viaHere)
    requires via != [] && via[|via| - 1].Exit() in net.links && net.links[via[|via| - 1].Exit()] == next
    requires go == Travel(WorldOf(net), Packet(next, goHere), more)
    requires OnlyPeers(go) && Consumed(net, go) == Log2(goHere)
    requires way == Exits(via) + Exits(go) && way[|way| - 1] in net.links
    requires at == net.links[way[|way| - 1]] && at.node in net.routers
    ensures var room := 63 - Log2(goHere) - Log2(viaHere) + BitsUsedForLabel(net.scheme(node), viaHere);
            && room >= 0
            && Exits(Journey(net, node, Splice(goHere, viaHere), |way| + 1)) == way + Delivery(net, at, room)
  {
    hide *;
    var lab := Splice(goHere, viaHere);
    var whole := Journey(net, node, lab, |way|);
    LinkedBack(net, way[|way| - 1]);
    JourneyIsTravel(net, node, lab, |way|);
    JourneyIsTravel(net, node, viaHere, ttl);
    UsesUpMeans(net, via, viaHere);
    SpliceContinuesAsGo(net, End(node, ROUTER), goHere, viaHere, ttl, next, more, via, go);
    PathOfSplice(goHere, viaHere);
    LastOfBoth(whole, way);
    ViaUsesFirstCode(net, node, viaHere, ttl, via);
    SpliceStartsAsVia(net.scheme(node), goHere, viaHere);
    WayUsesUp(net, whole, via, go, lab);
    DeliveryAtTheEnd(net, node, lab, |way|, whole, at);
  }

  lemma PushedOut7(rest: bv64, code: bv64)
    requires Under(code, 0x7F) == code
    ensures Or(Right(Or(Left(rest, 7), code), 7), Under(rest, 0xFE00_0000_0000_0000)) == rest
    ensures Clear(Under(rest, 0xFE00_0000_0000_0000), 0x01FF_FFFF_FFFF_FFFF)
  {}

  lemma PushedOut8(rest: bv64, code: bv64)
    requires Under(code, 0xFF) == code
    ensures Or(Right(Or(Left(rest, 8), code), 8), Under(rest, 0xFF00_0000_0000_0000)) == rest
    ensures Clear(Under(rest, 0xFF00_0000_0000_0000), 0x00FF_FFFF_FFFF_FFFF)
  {}

  lemma PushedOut10(rest: bv64, code: bv64)
    requires Under(code, 0x3FF) == code
    ensures Or(Right(Or(Left(rest, 10), code), 10), Under(rest, 0xFFC0_0000_0000_0000)) == rest
    ensures Clear(Under(rest, 0xFFC0_0000_0000_0000), 0x003F_FFFF_FFFF_FFFF)
  {}

  // Below the code that was put there the rest of a label goes on, as far as it was not
  // pushed out at the high end.
  lemma CodeOffPrepended(rest: bv64, bits: nat, code: bv64)
    requires bits == 7 || bits == 8 || bits == 10
    requires Low(code, bits) == code
    ensures LowBits(Shr(Prepend(rest, bits, code), bits), 64 - bits) == LowBits(rest, 64 - bits)
  {
    MasksOfRests();
    hide Low, Shr, Shl, Left, Right, Under, Or, Mask, Clear, LowBits;
    LowValue(code, bits);
    ShlValues(rest);
    ShrValues(Prepend(rest, bits, code));
    var off := Shr(Prepend(rest, bits, code), bits);
    if bits == 7 {
      PushedOut7(rest, code);
      HighBitsDoNotShow(off, Under(rest, 0xFE00_0000_0000_0000), 57);
    } else if bits == 8 {
      PushedOut8(rest, code);
      HighBitsDoNotShow(off, Under(rest, 0xFF00_0000_0000_0000), 56);
    } else {
      PushedOut10(rest, code);
      HighBitsDoNotShow(off, Under(rest, 0xFFC0_0000_0000_0000), 54);
    }
  }

  // The width of the first code of the label that is handed out.
  function JointBits(sch: Scheme, target: bv64, whoIsAsking: bv64): nat {
    if BitsUsedForLabel(sch, target) >= BitsUsedForLabel(sch, whoIsAsking) then BitsUsedForLabel(sch, target)
    else BitsUsedForLabel(sch, whoIsAsking)
  }

  // getLabelFor changes only how the first hop is written: below the widened code the
  // label goes on with the route of target, as far as there is room for it.
  lemma LabelForKeepsRoute(sch: Scheme, target: bv64, whoIsAsking: bv64)
    ensures var from, bits := BitsUsedForLabel(sch, target), JointBits(sch, target, whoIsAsking);
            from <= bits <= 64
            && LowBits(GetLabelFor(sch, target, whoIsAsking), 64)[bits..] == LowBits(target, 64)[from..][..64 - bits]
  {
    var from, bits := BitsUsedForLabel(sch, target), JointBits(sch, target, whoIsAsking);
    var lab := GetLabelFor(sch, target, whoIsAsking);
    WidthsOfLabels(sch, target);
    WidthsOfLabels(sch, whoIsAsking);
    if from < bits {
      hide GetDecompressed, GetCompressed, Low, Prepend, Shr, LowBits, GetLabelFor;
      LabelForIs(sch, target, whoIsAsking);
      CodeOffPrepended(Shr(target, from), bits, GetCompressed(sch, GetDecompressed(sch, target, from), bits));
      LowBitsShifted(lab, bits, 64 - bits);
      LowBitsShifted(target, from, 64 - from);
      FewerLowBits(Shr(target, from), 64 - bits, 64 - from);
    } else {
      hide LowBits;
      assert LowBits(target, 64)[from..][..64 - bits] == LowBits(target, 64)[from..];
    }
  }

  // What is left of both labels after the first hop, made by the router that knows the
  // way and by the packet of the node that asked for it.
  lemma JointHop(net: Network, at: Socket, target: bv64, whoIsAsking: bv64)
    requires WellFormed(net) && at in net.links
    requires BitsUsedForNumber(net.scheme(at.node), at.slot) <= BitsUsedForLabel(net.scheme(at.node), whoIsAsking)
    requires Switched(net, End(at.node, ROUTER), target).Forwarded?
    requires Switched(net, End(at.node, ROUTER), target).dest != ROUTER
    ensures var sch := net.scheme(at.node);
            var lab := GetLabelFor(sch, target, whoIsAsking);
            var own, other := Switched(net, End(at.node, ROUTER), target), Switched(net, at, lab);
            && other.Forwarded? && other.dest == own.dest
            && BitsUsedForLabel(sch, lab) == JointBits(sch, target, whoIsAsking) <= 64
            && AgreeOn(own.lab, other.lab, 64 - JointBits(sch, target, whoIsAsking))
  {
    var sch := net.scheme(at.node);
    hide *;
    var lab := GetLabelFor(sch, target, whoIsAsking);
    var router := End(at.node, ROUTER);
    var dest, from := SwitchedMeans(net, router, target);
    RouterPassMeans(sch, target, dest, from);
    LinkedSlot(net, at);
    JointCode(sch, at.slot, target, whoIsAsking, dest);
    var bits := JointBits(sch, target, whoIsAsking);
    LabelForKeepsRoute(sch, target, whoIsAsking);
    SwitchedWhen(net, at, lab, dest, bits);
    HopConsumesBits(net, router, target);
    HopConsumesBits(net, at, lab);
    FewerLowBits(Switched(net, router, target).lab, 64 - bits, 64 - from);
    SameBitsAgree(Switched(net, router, target).lab, Switched(net, at, lab).lab, 64 - bits);
  }

  lemma LinkedSlot(net: Network, at: Socket)
    requires WellFormed(net) && at in net.links
    ensures IsInterface(net.scheme(at.node), at.slot) && IsAttached(net, at)
  {
    hide IsInterface;
  }

  lemma JointCode(sch: Scheme, source: bv64, target: bv64, whoIsAsking: bv64, dest: bv64)
    requires IsInterface(sch, source) && dest != ROUTER
    requires BitsUsedForNumber(sch, source) <= BitsUsedForLabel(sch, whoIsAsking)
    requires dest == GetDecompressed(sch, target, BitsUsedForLabel(sch, target))
    ensures var lab := GetLabelFor(sch, target, whoIsAsking);
            && BitsUsedForLabel(sch, lab) == JointBits(sch, target, whoIsAsking)
            && Decide(sch, source, lab) == Pass(dest, JointBits(sch, target, whoIsAsking))
  {
    hide GetDecompressed, GetCompressed, BitsUsedForLabel, BitsUsedForNumber, Decide, IsInterface, GetLabelFor;
    LabelForNames(sch, target, whoIsAsking);
    PeerCodePasses(sch, source, GetLabelFor(sch, target, whoIsAsking), dest, JointBits(sch, target, whoIsAsking));
  }

  // Packets that leave a node together, with labels that agree, go on together.
  lemma AlikeAfterFirst(net: Network, p: Packet<bv64, bv64>, q: Packet<bv64, bv64>, n: nat, more: nat,
                        own: seq<Hop<bv64, bv64>>, other: seq<Hop<bv64, bv64>>)
    requires own == Travel(WorldOf(net), p, more) && own != [] && OnlyPeers(own)
    requires other == Travel(WorldOf(net), q, |own|)
    requires p.at.node == q.at.node && Switched(net, q.at, q.lab).Forwarded?
    requires own[0].dest == Switched(net, q.at, q.lab).dest
    requires n <= 64 && AgreeOn(own[0].lab, Switched(net, q.at, q.lab).lab, n) && Consumed(net, own[1..]) <= n
    ensures other != [] && other[0].packet == q
    ensures Exits(other) == Exits(own) && Consumed(net, other[1..]) == Consumed(net, own[1..])
  {
    hide *;
    var w := WorldOf(net);
    TravelSplits(net, p, more);
    TravelSplits(net, q, |own|);
    ExitsSplit(own);
    var next := End(p.at.node, own[0].dest);
    if |own| > 1 {
      var x, y := own[0].lab, Switched(net, q.at, q.lab).lab;
      SameBitsSameWay(net, net.links[next], x, y, n, more - 1);
    } else {
      assert own[1..] == [];
    }
    ExitsSplit(other);
  }

  // A journey is its first hop and the journey from there.
  lemma TravelSplits(net: Network, p: Packet<bv64, bv64>, ttl: nat)
    ensures var hops := Travel(WorldOf(net), p, ttl);
            var out := Switched(net, p.at, p.lab);
            if ttl == 0 || out.Refused? then hops == []
            else
              && hops != [] && hops[0] == Hop(p, out.dest, out.lab)
              && hops[1..] == (if End(p.at.node, out.dest) in net.links
                               then Travel(WorldOf(net), Packet(net.links[End(p.at.node, out.dest)], out.lab), ttl - 1)
                               else [])
  {
    hide Switched, Travel;
    TravelUnfolds(WorldOf(net), p, ttl);
  }

  lemma ExitsSplit(hops: seq<Hop<bv64, bv64>>)
    requires hops != []
    ensures Exits(hops) == [End(hops[0].packet.at.node, hops[0].dest)] + Exits(hops[1..])
    ensures OnlyPeers(hops) ==> hops[0].dest != ROUTER && OnlyPeers(hops[1..])
  {}

  lemma ConsumedFirst(net: Network, hops: seq<Hop<bv64, bv64>>)
    requires hops != []
    ensures Consumed(net, hops)
         == BitsUsedForLabel(net.scheme(hops[0].packet.at.node), hops[0].packet.lab) + Consumed(net, hops[1..])
  {
    hide BitsUsedForLabel;
  }

  // The packet of a node that got a label from getLabelFor, arriving at the node that
  // handed it out, makes the hops that this node's own packets make with the label that it
  // knows, as long as the widened label has room for them.
  lemma LabelForTakesSameWay(net: Network, at: Socket, target: bv64, whoIsAsking: bv64, more: nat,
                             own: seq<Hop<bv64, bv64>>, other: seq<Hop<bv64, bv64>>)
    requires WellFormed(net) && at in net.links
    requires BitsUsedForNumber(net.scheme(at.node), at.slot) <= BitsUsedForLabel(net.scheme(at.node), whoIsAsking)
    requires own == Journey(net, at.node, target, more) && own != [] && OnlyPeers(own)
    requires Consumed(net, own) - BitsUsedForLabel(net.scheme(at.node), target)
             + JointBits(net.scheme(at.node), target, whoIsAsking) <= 64
    requires other == Travel(WorldOf(net), Packet(at, GetLabelFor(net.scheme(at.node), target, whoIsAsking)), |own|)
    ensures Exits(other) == Exits(own)
    ensures Consumed(net, other) == Consumed(net, own) - BitsUsedForLabel(net.scheme(at.node), target)
                                    + JointBits(net.scheme(at.node), target, whoIsAsking)
  {
    hide *;
    var sch := net.scheme(at.node);
    var router := Packet(End(at.node, ROUTER), target);
    JourneyIsTravel(net, at.node, target, more);
    TravelSplits(net, router, more);
    ExitsSplit(own);
    JointHop(net, at, target, whoIsAsking);
    ConsumedFirst(net, own);
    AlikeAfterFirst(net, router, Packet(at, GetLabelFor(sch, target, whoIsAsking)),
                    64 - JointBits(sch, target, whoIsAsking), more, own, other);
    ConsumedFirst(net, other);
  }

  // Where there is room for it, the label that is handed out has the path of target with
  // its first code made wider.
  lemma LabelForPath(sch: Scheme, target: bv64, whoIsAsking: bv64)
    requires target != 0 && BitsUsedForLabel(sch, target) <= Log2(target)
    requires Log2(target) - BitsUsedForLabel(sch, target) + JointBits(sch, target, whoIsAsking) <= 63
    ensures var from, bits := BitsUsedForLabel(sch, target), JointBits(sch, target, whoIsAsking);
            var lab := GetLabelFor(sch, target, whoIsAsking);
            && lab != 0 && PathOf(lab) == LowBits(lab, bits) + PathOf(target)[from..]
            && Log2(lab) == Log2(target) - from + bits
  {
    hide *;
    var from, bits := BitsUsedForLabel(sch, target), JointBits(sch, target, whoIsAsking);
    var lab := GetLabelFor(sch, target, whoIsAsking);
    LabelForKeepsRoute(sch, target, whoIsAsking);
    PathThenMarker(target, 64);
    FewerLowBits(lab, bits, 64);
    var path := LowBits(lab, bits) + PathOf(target)[from..];
    var n := 64 - |path|;
    FewerLowBits(1, n, 64 - Log2(target));
    AfterPath(PathOf(target), LowBits(1, 64 - Log2(target)), from, n);
    FromPathFits(path);
    PathSurvives(path);
    PathThenMarker(FromPath(path), 64);
    assert LowBits(lab, 64) == LowBits(lab, 64)[..bits] + LowBits(lab, 64)[bits..];
    SameBitsAgree(lab, FromPath(path), 64);
    AllBitsAgree(lab, FromPath(path));
  }

  // The label that is handed out has the path of target with its first code made wider.
  predicate HasWholeRoute(sch: Scheme, target: bv64, whoIsAsking: bv64) {
    var from, bits := BitsUsedForLabel(sch, target), JointBits(sch, target, whoIsAsking);
    var lab := GetLabelFor(sch, target, whoIsAsking);
    from <= Log2(target) && PathOf(lab) == LowBits(lab, bits) + PathOf(target)[from..]
  }

  // The wider code pushes the end of the route, and the marker, out of the label exactly
  // where the widened label would have more than 63 bits below its marker.
  lemma LabelForFitsExactly(sch: Scheme, target: bv64, whoIsAsking: bv64)
    requires target != 0 && BitsUsedForLabel(sch, target) <= Log2(target)
    ensures HasWholeRoute(sch, target, whoIsAsking)
      <==> Log2(target) - BitsUsedForLabel(sch, target) + JointBits(sch, target, whoIsAsking) <= 63
  {
    hide GetLabelFor, BitsUsedForLabel, JointBits, PathOf, LowBits, Log2;
    var from, bits := BitsUsedForLabel(sch, target), JointBits(sch, target, whoIsAsking);
    var lab := GetLabelFor(sch, target, whoIsAsking);
    Log2IsBounded(lab);
    LabelForKeepsRoute(sch, target, whoIsAsking);
    if Log2(target) - from + bits <= 63 {
      LabelForPath(sch, target, whoIsAsking);
    } else {
      assert |PathOf(lab)| <= 63 < |LowBits(lab, bits) + PathOf(target)[from..]|;
    }
  }

  lemma AfterPath(path: Path, above: Path, from: nat, n: nat)
    requires from <= |path| && n <= |above|
    ensures (path + above)[from..][..|path| - from + n] == path[from..] + above[..n]
  {}

  // Routes as nodes find them.  The node behind the slot at answers the node that asked
  // with a label for its own route own, and that node splices it onto its route there.  A
  // packet with the splice makes the hops of both routes, and the last one into the router
  // at the end exactly when the zeros that are left make room for the code of that slot.
  lemma SplicedAnswerIsDelivered(net: Network, node: nat, viaHere: bv64, ttl: nat, target: bv64, whoIsAsking: bv64,
                                 more: nat, via: seq<Hop<bv64, bv64>>, own: seq<Hop<bv64, bv64>>,
                                 at: Socket, way: seq<Socket>, end: Socket)
    requires WellFormed(net) && viaHere != 0 && target != 0
    requires via == Journey(net, node, viaHere, ttl) && UsesUp(net, via, viaHere)
    requires via != [] && via[|via| - 1].Exit() in net.links && net.links[via[|via| - 1].Exit()] == at
    requires BitsUsedForNumber(net.scheme(at.node), at.slot) <= BitsUsedForLabel(net.scheme(at.node), whoIsAsking)
    requires own == Journey(net, at.node, target, more) && UsesUp(net, own, target)
    requires Log2(target) - BitsUsedForLabel(net.scheme(at.node), target)
             + JointBits(net.scheme(at.node), target, whoIsAsking) + Log2(viaHere) <= 60
    requires way == Exits(via) + Exits(own) && way[|way| - 1] in net.links
    requires end == net.links[way[|way| - 1]] && end.node in net.routers
    ensures var goHere := GetLabelFor(net.scheme(at.node), target, whoIsAsking);
            var room := 63 - Log2(goHere) - Log2(viaHere) + BitsUsedForLabel(net.scheme(node), viaHere);
            && Log2(goHere) + Log2(viaHere) <= 60
            && Exits(Journey(net, node, Splice(goHere, viaHere), |way| + 1)) == way + Delivery(net, end, room)
  {
    hide *;
    var sch := net.scheme(at.node);
    var goHere := GetLabelFor(sch, target, whoIsAsking);
    var go := Travel(WorldOf(net), Packet(at, goHere), |own|);
    UsesUpMeans(net, own, target);
    LinkedBack(net, via[|via| - 1].Exit());
    ViaUsesFirstCode(net, at.node, target, more, own);
    LabelForPath(sch, target, whoIsAsking);
    LabelForTakesSameWay(net, at, target, whoIsAsking, more, own, go);
    ExitsArePeers(go, own);
    SpliceIsDelivered(net, node, goHere, viaHere, ttl, at, |own|, via, go, way, end);
  }
}
