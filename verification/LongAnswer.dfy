// An answer that is too long: in the row of nodes of LongSplice, a label that is adapted for
// an asking node loses its end, and the packet with it is refused one node early.

module LongAnswer {
  import opened Bits
  import opened LabelBits
  import opened NumberCompress
  import opened Switching
  import opened Journeys
  import opened Network
  import opened LabelSplicer
  import opened Routes
  import opened Deliveries
  import opened LongSplice

  // The label of the asking node: the code of slot 2 in 10 bits, below the marker.
  const ASKING: bv64 := 0x404

  function Answered(): bv64 {
    GetLabelFor(Dyn, LabelOf(15), ASKING)
  }

  lemma AskingCode()
    ensures BitsUsedForLabel(Dyn, ASKING) == 10 && GetDecompressed(Dyn, ASKING, 10) == OUT
    ensures BitsUsedForNumber(Dyn, OUT) == 4 && IsInterface(Dyn, OUT)
  {}

  lemma FirstTwos(j: nat, k: nat)
    requires j <= k
    ensures Twos(k)[..4 * j] == Twos(j) && Twos(k)[4 * j..] == Twos(k - j)
  {
    TwosInARow(j, k - j);
  }

  // The way of the router that knows it, and the bits of its label.
  lemma OwnWay()
    ensures LowBits(LabelOf(15), 64) == Twos(15) + LowBits(1, 4)
    ensures var own := Journey(Row(), 0, LabelOf(15), 14);
            own != [] && Exits(own) == Along(0, 14) && OnlyPeers(own) && Consumed(Row(), own) == 56
    ensures BitsUsedForLabel(Dyn, LabelOf(15)) == 4
    ensures Exits(Journey(Row(), 0, LabelOf(15), 15)) == Along(0, 15)
  {
    hide *;
    LabelOfMeans(15);
    PathThenMarker(LabelOf(15), 64);
    FewerLowBits(LabelOf(15), 56, 60);
    FirstTwos(14, 15);
    RowLinks(End(0, OUT));
    RouterStarts(0);
    AlongTheRow(End(0, ROUTER), LabelOf(15), 14);
    AlongTheRow(End(0, ROUTER), LabelOf(15), 15);
    JourneyIsTravel(Row(), 0, LabelOf(15), 14);
    JourneyIsTravel(Row(), 0, LabelOf(15), 15);
    StartsWithTwo(LabelOf(15), 15);
  }

  lemma JointWidth()
    requires BitsUsedForLabel(Dyn, LabelOf(15)) == 4
    ensures JointBits(Dyn, LabelOf(15), ASKING) == 10
  {
    AskingCode();
    hide BitsUsedForLabel, LabelOf;
  }

  // The packet of the node that asked, for as long as the label it got lasts.
  lemma AnsweredWay(other: seq<Hop<bv64, bv64>>)
    requires other == Travel(WorldOf(Row()), Packet(End(0, OUT), Answered()), 14)
    ensures Exits(other) == Along(0, 14) && OnlyPeers(other) && |other| == 14
    ensures Consumed(Row(), other) == 62
  {
    hide *;
    var own := Journey(Row(), 0, LabelOf(15), 14);
    OwnWay();
    RowIsWellFormed();
    LinkForth(0);
    RowLinks(End(0, OUT));
    AskingCode();
    JointWidth();
    AnsweredIs();
    LabelForTakesSameWay(Row(), End(0, OUT), LabelOf(15), ASKING, 14, own, other);
    ExitsArePeers(other, own);
  }

  lemma AnsweredIs()
    ensures Answered() == GetLabelFor(Dyn, LabelOf(15), ASKING)
  {
    hide GetLabelFor, LabelOf;
  }

  lemma HalfKeepsFit(x: bv64, m: bv64)
    requires Fits(x, m)
    ensures Fits(Half(x), Half(m))
  {}

  lemma {:induction false} ShrFits(x: bv64, k: nat)
    ensures Fits(Shr(x, k), Shr(ALL_ONES, k))
  {
    hide Fits, Half;
    AllFit(x);
    if k > 0 {
      ShrFits(x, k - 1);
      HalfKeepsFit(Shr(x, k - 1), Shr(ALL_ONES, k - 1));
    }
  }

  lemma FitsNothing(x: bv64)
    requires Fits(x, 0)
    ensures x == 0
  {}

  lemma NothingBeyond(x: bv64)
    ensures LowBits(x, 66) == LowBits(x, 64) + [0, 0]
  {
    MaskOfOneBit();
    MaskIsShr();
    hide Shr, LowBits, Mask, Fits;
    ShrFits(x, 64);
    FitsNothing(Shr(x, 64));
    LowBitsShifted(x, 64, 2);
    FewerLowBits(x, 64, 66);
    TwoZeros();
    assert LowBits(x, 66) == LowBits(x, 66)[..64] + LowBits(x, 66)[64..];
  }

  lemma MaskIsShr()
    ensures Mask(0) == Shr(ALL_ONES, 64)
  {
    hide Shr;
  }

  lemma TwoZeros()
    ensures LowBits(0, 2) == [0, 0]
  {
    HalfOfZero();
    assert LowBits(0, 2) == [LowestBit(0)] + LowBits(Half(0), 1);
    assert LowBits(0, 1) == [LowestBit(0)] + LowBits(Half(0), 0);
  }

  // Of the fourteen codes after the first, two bits of the last were pushed out.
  lemma AnsweredBits()
    ensures LowBits(Answered(), 66)[10..] == Twos(14)[..54] + [0, 0]
  {
    hide *;
    OwnWay();
    JointWidth();
    AnsweredIs();
    LabelForKeepsRoute(Dyn, LabelOf(15), ASKING);
    FirstTwos(1, 15);
    NothingBeyond(Answered());
    var bits, rest := LowBits(Answered(), 64), LowBits(LabelOf(15), 64);
    assert rest[4..] == Twos(14) + LowBits(1, 4);
    assert rest[4..][..54] == Twos(14)[..54];
    assert (bits + [0, 0])[10..] == bits[10..] + [0, 0];
  }

  lemma WideCode()
    ensures var code := GetCompressed(Dyn, OUT, 10);
            Low(code, 10) == code && Clear(Reverse(code), Mask(56))
  {
    MasksOfRests();
    AskingCode();
    CodeFits(Dyn, OUT, 10);
    ReversedFour();
    hide Mask, Low;
  }

  lemma ReversedFour()
    ensures Reverse(4) == 0x2000_0000_0000_0000
    ensures GetCompressed(Dyn, OUT, 10) == 4
  {}

  lemma FirstOut()
    ensures Switched(Row(), End(0, OUT), Answered())
         == Forwarded(OUT, Shift(Answered(), 10, GetCompressed(Dyn, OUT, 10)))
  {
    hide *;
    OwnWay();
    LabelOfMeans(15);
    StartsWithTwo(LabelOf(15), 15);
    JointWidth();
    AnsweredIs();
    AskingCode();
    Slots(0);
    LinkForth(0);
    RowLinks(End(0, OUT));
    RowIsWellFormed();
    LinkedSlot(Row(), End(0, OUT));
    JointCode(Dyn, OUT, LabelOf(15), ASKING, OUT);
    SwitchedWhen(Row(), End(0, OUT), Answered(), OUT, 10);
  }

  lemma LastFourBits(p: Path, y: Path, q: Path)
    requires |q| == 12 && |y| == 64 && q == y[52..] && y[..56] == p + [0, 0] && |p| == 54 && p[52..] == [1, 0]
    ensures q[..4] == [1, 0, 0, 0]
  {
    assert q[..4] == y[..56][52..];
  }

  lemma LastTwo()
    ensures Twos(14)[..54][52..] == [1, 0]
  {
    FirstTwos(13, 14);
    assert Twos(1) == [1, 0, 1, 0] + Twos(0);
    assert Twos(14)[..54][52..] == Twos(14)[52..][..2];
  }

  // Where the label has lasted, what comes next reads as the code of the router.
  lemma LastLabel(other: seq<Hop<bv64, bv64>>)
    requires other == Travel(WorldOf(Row()), Packet(End(0, OUT), Answered()), 14)
    ensures |other| == 14 && AgreeOn(other[13].lab, 1, 4)
  {
    hide *;
    var first := Packet(End(0, OUT), Answered());
    var y := Shift(Answered(), 10, GetCompressed(Dyn, OUT, 10));
    AnsweredWay(other);
    FirstOut();
    TravelSplits(Row(), first, 14);
    LinkForth(0);
    ExitsSplit(other);
    ConsumedFirst(Row(), other);
    RowLinks(End(0, OUT));
    AnsweredWidth();
    var rest := other[1..];
    LabelIsQueue(Row(), End(1, In(1)), y, 13, rest);
    WideCode();
    ShiftIs(Answered(), 10, GetCompressed(Dyn, OUT, 10));
    HighBitsDoNotShow(Shr(Answered(), 10), Reverse(GetCompressed(Dyn, OUT, 10)), 56);
    LowBitsShifted(Answered(), 10, 56);
    AnsweredBits();
    FewerLowBits(y, 56, 64);
    FewerLowBits(other[13].lab, 4, 12);
    LastTwo();
    LastFourBits(Twos(14)[..54], LowBits(y, 64), LowBits(other[13].lab, 12));
    FourBitsOfOne();
    SameBitsAgree(1, other[13].lab, 4);
    SameBitsAgree(other[13].lab, 1, 4);
  }

  lemma ShiftIs(lab: bv64, bits: nat, code: bv64)
    ensures Shift(lab, bits, code) == Or(Shr(lab, bits), Reverse(code))
  {
    hide Or, Shr, Reverse;
  }

  lemma FourBitsOfOne()
    ensures LowBits(1, 4) == [1, 0, 0, 0]
  {
    TwoZeros();
    HalfOfZero();
    assert LowBits(0, 3) == [LowestBit(0)] + LowBits(Half(0), 2);
    assert LowBits(1, 4) == [LowestBit(1)] + LowBits(Half(1), 3);
  }

  lemma AnsweredWidth()
    ensures BitsUsedForLabel(Dyn, Answered()) == 10
  {
    hide *;
    OwnWay();
    LabelOfMeans(15);
    StartsWithTwo(LabelOf(15), 15);
    JointWidth();
    AnsweredIs();
    AskingCode();
    Slots(0);
    JointCode(Dyn, OUT, LabelOf(15), ASKING, OUT);
  }

  // Node 14 has no router.
  lemma NoRouterThere(lab: bv64)
    requires AgreeOn(lab, 1, 4)
    ensures Received(Row(), End(14, In(14)), lab) == Returned(NoInterface, Reverse(lab))
  {
    hide *;
    RowIsWellFormed();
    LinkForth(13);
    RowLinks(End(14, In(14)));
    LinkedSlot(Row(), End(14, In(14)));
    NotAttached();
    AgreeingCodes(lab, 1, 4);
    OneFits(4);
    SourceIsNarrow();
    RouterCodePasses(Dyn, In(14), lab, 4);
    RefusedWithoutInterface(Row(), End(14, In(14)), lab, 4);
  }

  lemma NotAttached()
    ensures !IsAttached(Row(), End(14, ROUTER))
  {
    RowLinks(End(14, ROUTER));
    hide Row, Links;
  }

  lemma RefusedWithoutInterface(net: Network, at: Socket, lab: bv64, bits: nat)
    requires IsAttached(net, at) && IsInterface(net.scheme(at.node), at.slot)
    requires Decide(net.scheme(at.node), at.slot, lab) == Pass(ROUTER, bits) && !IsAttached(net, End(at.node, ROUTER))
    ensures Received(net, at, lab) == Returned(NoInterface, Reverse(lab))
  {
    hide IsAttached, Decide, Reverse, Shift, GetCompressed, IsInterface;
  }

  lemma SourceIsNarrow()
    ensures BitsUsedForNumber(Dyn, In(14)) == 4 && IsWidth(Dyn, 4)
  {}

  // The route of fifteen hops that the router of node 0 knows, asked for by the node behind
  // slot 2: the label that is handed out has lost its end.  The packet with it makes
  // fourteen hops; then what is left of the label reads as the code of the router of node
  // 14, which is not where it was to go.
  lemma AnswerIsLost(lab: bv64, other: seq<Hop<bv64, bv64>>)
    requires lab == GetLabelFor(Dyn, LabelOf(15), ASKING)
    requires other == Travel(WorldOf(Row()), Packet(End(0, OUT), lab), 15)
    ensures !HasWholeRoute(Dyn, LabelOf(15), ASKING)
    ensures Exits(Journey(Row(), 0, LabelOf(15), 15)) == Along(0, 15)
    ensures Exits(other) == Along(0, 14) && |other| == 14
    ensures var last := other[|other| - 1].lab;
            Received(Row(), End(14, In(14)), last) == Returned(NoInterface, Reverse(last))
  {
    hide *;
    var p := Packet(End(0, OUT), Answered());
    var fourteen := Travel(WorldOf(Row()), p, 14);
    AnsweredIs();
    OwnWay();
    JointWidth();
    LabelOfMeans(15);
    LabelForFitsExactly(Dyn, LabelOf(15), ASKING);
    AnsweredWay(fourteen);
    LastLabel(fourteen);
    LinkForth(13);
    AlongAt(0, 14, 13);
    LastOfBoth(fourteen, Along(0, 14));
    var q := Packet(End(14, In(14)), fourteen[13].lab);
    NoRouterThere(q.lab);
    ReceivedIsSwitched(Row(), q.at, q.lab);
    JourneyContinues(Row(), p, 14, q, 1, fourteen);
    NoOrOneHop(Row(), q);
    assert fourteen + [] == fourteen;
  }
}
