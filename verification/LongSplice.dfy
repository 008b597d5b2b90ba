// A splice that is accepted although its packet is not: sixteen nodes in a row, two labels
// that each get their packets delivered, and the splice of them, 60 bits long, with which
// a packet makes all its hops and is refused where it should be delivered.

module LongSplice {
  import opened Bits
  import opened LabelBits
  import opened NumberCompress
  import opened Switching
  import opened Journeys
  import opened Network
  import opened LabelSplicer
  import opened Routes
  import opened Deliveries

  const OUT: bv64 := 2

  // The slot that leads back to the node before; the last node has many peers.
  function In(node: nat): bv64 {
    if node == 15 then 40 else 3
  }

  predicate HasLink(e: Socket, n: nat) {
    (e.slot == OUT && e.node < n) || (0 < e.node <= n && e.slot == In(e.node))
  }

  function OtherEnd(e: Socket): Socket {
    if e.slot == OUT || e.node == 0 then End(e.node + 1, In(e.node + 1)) else End(e.node - 1, OUT)
  }

  function Links(n: nat): (links: map<Socket, Socket>)
    ensures forall e :: e in links <==> HasLink(e, n)
    ensures forall e <- links :: links[e] == OtherEnd(e)
  {
    if n == 0 then map[]
    else Links(n - 1)[End(n - 1, OUT) := End(n, In(n))][End(n, In(n)) := End(n - 1, OUT)]
  }

  function Row(): Network {
    Network(node => Dyn, Links(15), {0, 7, 15})
  }

  lemma Slots(node: nat)
    ensures In(node) != OUT && In(node) != ROUTER && OUT != ROUTER
    ensures IsInterface(Dyn, In(node)) && IsInterface(Dyn, OUT)
  {}

  lemma RowLinks(e: Socket)
    ensures e in Row().links <==> HasLink(e, 15)
    ensures e in Row().links ==> Row().links[e] == OtherEnd(e)
    ensures Row().scheme(e.node) == Dyn && Row().routers == {0, 7, 15}
  {
    hide In, HasLink, OtherEnd;
  }

  lemma OtherEndHasLink(e: Socket)
    requires HasLink(e, 15)
    ensures HasLink(OtherEnd(e), 15) && OtherEnd(OtherEnd(e)) == e
    ensures e.slot == OUT || e.slot == In(e.node)
  {
    Slots(e.node);
    Slots(e.node + 1);
    hide In, OUT;
  }

  lemma RowIsWellFormed()
    ensures WellFormed(Row())
  {
    hide In, HasLink, OtherEnd, Row, IsInterface, OUT, ROUTER;
    forall e | e in Row().links
      ensures e.slot != ROUTER && IsInterface(Row().scheme(e.node), e.slot)
      ensures Row().links[e] in Row().links && Row().links[Row().links[e]] == e
    {
      RowLinks(e);
      OtherEndHasLink(e);
      Slots(e.node);
      RowLinks(OtherEnd(e));
    }
  }

  lemma LinkForth(node: nat)
    requires node < 15
    ensures End(node, OUT) in Row().links && Row().links[End(node, OUT)] == End(node + 1, In(node + 1))
    ensures End(node + 1, In(node + 1)) in Row().links
  {
    RowLinks(End(node, OUT));
    RowLinks(End(node + 1, In(node + 1)));
    hide In, Row;
  }

  // The code of slot 2, lowest bit first, as often as asked for.
  function Twos(k: nat): (p: Path)
    ensures |p| == 4 * k
  {
    if k == 0 then [] else [1, 0, 1, 0] + Twos(k - 1)
  }

  // The sockets a packet leaves through on k hops along the row.
  function Along(node: nat, k: nat): (way: seq<Socket>)
    ensures |way| == k
    decreases k
  {
    if k == 0 then [] else [End(node, OUT)] + Along(node + 1, k - 1)
  }

  lemma CodeOfTwo()
    ensures LowBits(5, 4) == [1, 0, 1, 0]
    ensures BitsUsedForLabel(Dyn, 5) == 4 && GetDecompressed(Dyn, 5, 4) == OUT
  {
    assert LowBits(5, 4) == [1] + LowBits(2, 3);
    assert LowBits(2, 3) == [0] + LowBits(1, 2);
    assert LowBits(1, 2) == [1] + LowBits(0, 1);
  }

  lemma StartsWithTwo(lab: bv64, k: nat)
    requires k > 0 && LowBits(lab, 4 * k) == Twos(k)
    ensures BitsUsedForLabel(Dyn, lab) == 4 && GetDecompressed(Dyn, lab, 4) == OUT
  {
    hide LowBits, GetDecompressed, BitsUsedForLabel;
    CodeOfTwo();
    FewerLowBits(lab, 4, 4 * k);
    SameCodeSameInterface(Dyn, 5, lab);
  }

  // Where the packet starts: at the router of a node, or on the slot that leads back.
  predicate IsStart(at: Socket) {
    (0 < at.node < 15 && at.slot == In(at.node)) || (at.slot == ROUTER && at.node in Row().routers)
  }

  lemma StartIsNarrow(at: Socket)
    requires IsStart(at)
    ensures IsInterface(Dyn, at.slot) && BitsUsedForNumber(Dyn, at.slot) == 4
    ensures at.slot == ROUTER || (at.slot == In(at.node) && at.node > 0)
  {
    hide Row;
  }

  lemma StartIsAttached(at: Socket)
    requires IsStart(at) && at.node < 15
    ensures IsAttached(Row(), at) && IsAttached(Row(), End(at.node, OUT))
    ensures Row().scheme(at.node) == Dyn
  {
    LinkForth(at.node);
    RowLinks(at);
    hide In, Row, Links;
    if at.slot != ROUTER {
      LinkForth(at.node - 1);
    }
  }

  lemma RestOfTwos(k: nat)
    requires k > 0
    ensures Twos(k)[4..] == Twos(k - 1)
  {}

  lemma OneHop(at: Socket, lab: bv64, k: nat)
    requires IsStart(at) && k > 0 && at.node + k <= 15 && LowBits(lab, 4 * k) == Twos(k)
    ensures Switched(Row(), at, lab).Forwarded? && Switched(Row(), at, lab).dest == OUT
    ensures LowBits(Switched(Row(), at, lab).lab, 4 * (k - 1)) == Twos(k - 1)
    ensures BitsUsedForLabel(Row().scheme(at.node), lab) == 4
  {
    hide *;
    StartsWithTwo(lab, k);
    StartIsNarrow(at);
    StartIsAttached(at);
    RestOfTwos(k);
    Slots(at.node);
    TwoIsCoded(lab);
    PeerCodePasses(Dyn, at.slot, lab, OUT, 4);
    SwitchedWhen(Row(), at, lab, OUT, 4);
    HopConsumesBits(Row(), at, lab);
    var next := Switched(Row(), at, lab).lab;
    FewerLowBits(next, 4 * (k - 1), 60);
    FewerLowBits(lab, 4 * k, 64);
    MiddleOf(LowBits(lab, 64), 4, 4 * k);
  }

  lemma TwoIsCoded(lab: bv64)
    requires BitsUsedForLabel(Dyn, lab) == 4 && GetDecompressed(Dyn, lab, 4) == OUT
    ensures CodeAt(Dyn, lab, OUT, 4)
  {
    hide BitsUsedForLabel, GetDecompressed;
  }

  lemma NextStarts(node: nat)
    requires 0 < node
    ensures node < 15 ==> IsStart(End(node, In(node)))
  {
    hide In, Row;
  }

  lemma {:induction false} AlongTheRow(at: Socket, lab: bv64, k: nat)
    requires IsStart(at) && at.node + k <= 15 && LowBits(lab, 4 * k) == Twos(k)
    ensures var hops := Travel(WorldOf(Row()), Packet(at, lab), k);
            Exits(hops) == Along(at.node, k) && OnlyPeers(hops) && Consumed(Row(), hops) == 4 * k
    decreases k
  {
    hide Switched, LowBits, BitsUsedForLabel, Travel, GetDecompressed, In, Row, Twos, IsStart;
    TravelUnfolds(WorldOf(Row()), Packet(at, lab), k);
    if k > 0 {
      OneHop(at, lab, k);
      LinkForth(at.node);
      Slots(at.node);
      NextStarts(at.node + 1);
      var next := Packet(End(at.node + 1, In(at.node + 1)), Switched(Row(), at, lab).lab);
      if k > 1 {
        AlongTheRow(next.at, next.lab, k - 1);
      } else {
        TravelUnfolds(WorldOf(Row()), next, 0);
      }
    }
  }

  // The label for k hops.
  function LabelOf(k: nat): bv64 {
    FromPath(Twos(k))
  }

  lemma LabelOfMeans(k: nat)
    requires k <= 15
    ensures LabelOf(k) != 0 && PathOf(LabelOf(k)) == Twos(k) && Log2(LabelOf(k)) == 4 * k
    ensures LowBits(LabelOf(k), 4 * k) == Twos(k)
  {
    hide FromPath, PathOf, Log2, LowBits;
    FromPathHasRoom(Twos(k));
    PathSurvives(Twos(k));
    PathThenMarker(LabelOf(k), 4 * k);
    assert LowBits(1, 0) == [];
  }

  lemma {:induction false} TwosInARow(j: nat, k: nat)
    ensures Twos(j) + Twos(k) == Twos(j + k)
  {
    if j == 0 {
      assert [] + Twos(k) == Twos(k);
    } else {
      TwosInARow(j - 1, k);
      assert [1, 0, 1, 0] + Twos(j - 1) + Twos(k) == [1, 0, 1, 0] + (Twos(j - 1) + Twos(k));
    }
  }

  lemma {:induction false} AlongAt(node: nat, k: nat, i: nat)
    requires i < k
    ensures Along(node, k)[i] == End(node + i, OUT)
    decreases k
  {
    if i > 0 {
      AlongAt(node + 1, k - 1, i - 1);
    }
  }

  // The packets of the router of a node to that many nodes further on are delivered where
  // the label leaves enough zeros for the code of the slot they come in by.
  lemma RowDelivers(node: nat, k: nat)
    requires node in Row().routers && 0 < k && node + k <= 15 && node + k in Row().routers
    ensures Exits(Journey(Row(), node, LabelOf(k), k + 1))
         == Along(node, k) + Delivery(Row(), End(node + k, In(node + k)), 67 - 4 * k)
  {
    hide *;
    RowIsWellFormed();
    LinkForth(node + k - 1);
    LabelOfMeans(k);
    RouterStarts(node);
    AlongTheRow(End(node, ROUTER), LabelOf(k), k);
    StartsWithTwo(LabelOf(k), k);
    AlongAt(node, k, k - 1);
    var hops := Journey(Row(), node, LabelOf(k), k);
    JourneyIsTravel(Row(), node, LabelOf(k), k);
    UsesUpWhen(Row(), hops, LabelOf(k));
    LastOfBoth(hops, Along(node, k));
    RowLinks(End(node, OUT));
    DeliveryAtTheEnd(Row(), node, LabelOf(k), k, hops, End(node + k, In(node + k)));
  }

  lemma RouterStarts(node: nat)
    requires node in Row().routers
    ensures IsStart(End(node, ROUTER))
  {
    hide Row, In;
  }

  lemma UsesUpWhen(net: Network, hops: seq<Hop<bv64, bv64>>, lab: bv64)
    requires hops != [] && OnlyPeers(hops) && Consumed(net, hops) == Log2(lab)
    ensures UsesUp(net, hops, lab)
  {
    hide Consumed, Log2;
  }

  // The two labels each get their packets delivered, and their splice is accepted, but a
  // packet with it is refused by the node it should be delivered at.
  lemma SpliceIsNotDelivered()
    ensures var via, go := 0x15555555, 0x155555555;
            && Splice(go, via) == 0x1555555555555555 && Log2(go) + Log2(via) == 60
            && Exits(Journey(Row(), 0, via, 8)) == Along(0, 7) + [End(7, ROUTER)]
            && Exits(Journey(Row(), 7, go, 9)) == Along(7, 8) + [End(15, ROUTER)]
            && Exits(Journey(Row(), 0, Splice(go, via), 16)) == Along(0, 15)
  {
    hide *;
    LabelsOfRow();
    LabelOfMeans(7);
    LabelOfMeans(8);
    TwosInARow(7, 8);
    LabelOfIs(15);
    SpliceJoinsPaths(LabelOf(8), LabelOf(7));
    RowLinks(End(0, OUT));
    RowDelivers(0, 7);
    RowDelivers(7, 8);
    RowDelivers(0, 15);
    DeliveryIs(Row(), End(7, In(7)), 39);
    DeliveryIs(Row(), End(15, In(15)), 35);
    DeliveryIs(Row(), End(15, In(15)), 7);
    SourceWidths();
    assert Along(0, 15) + [] == Along(0, 15);
  }

  lemma LabelOfIs(k: nat)
    ensures LabelOf(k) == FromPath(Twos(k))
  {
    hide FromPath, Twos;
  }

  lemma SourceWidths()
    ensures BitsUsedForNumber(Row().scheme(7), In(7)) == 4 && BitsUsedForNumber(Row().scheme(15), In(15)) == 10
  {}

  lemma PushedTwo(x: bv64)
    ensures PushBit(PushBit(PushBit(PushBit(x, 0), 1), 0), 1) == (x << 4) | 5
  {}

  lemma PushedPath(p: Path, b: bv1)
    ensures FromPath([b] + p) == PushBit(FromPath(p), b)
  {
    hide PushBit;
    assert ([b] + p)[1..] == p;
  }

  lemma NextLabel(k: nat, v: bv64)
    requires LabelOf(k) == v
    ensures LabelOf(k + 1) == (v << 4) | 5
  {
    hide PushBit, FromPath;
    var p := Twos(k);
    PushedPath(p, 0);
    PushedPath([0] + p, 1);
    PushedPath([1] + ([0] + p), 0);
    PushedPath([0] + ([1] + ([0] + p)), 1);
    assert Twos(k + 1) == [1] + ([0] + ([1] + ([0] + p)));
    PushedTwo(v);
  }

  lemma LabelsOfRow()
    ensures LabelOf(7) == 0x15555555 && LabelOf(8) == 0x155555555 && LabelOf(15) == 0x1555555555555555
  {
    hide LabelOf;
    NoTwos();
    NextLabel(0, 1);
    NextLabel(1, 0x15);
    NextLabel(2, 0x155);
    NextLabel(3, 0x1555);
    NextLabel(4, 0x15555);
    NextLabel(5, 0x155555);
    NextLabel(6, 0x1555555);
    NextLabel(7, 0x15555555);
    NextLabel(8, 0x155555555);
    NextLabel(9, 0x1555555555);
    NextLabel(10, 0x15555555555);
    NextLabel(11, 0x155555555555);
    NextLabel(12, 0x1555555555555);
    NextLabel(13, 0x15555555555555);
    NextLabel(14, 0x155555555555555);
  }

  lemma NoTwos()
    ensures LabelOf(0) == 1
  {}
}
