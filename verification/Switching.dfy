// One hop through a switch: the label handling of receiveMessage and sendError
// in switch/SwitchCore.c, as functions of the label in host byte order.

module Switching {
  import opened Bits
  import opened LabelBits
  import opened NumberCompress

  // The slot where the router of a node is attached.
  const ROUTER: bv64 := 1

  datatype Refusal = WrongDiscriminator | NoReturnPath | SourceTooLarge | NoInterface

  // What the switch reads from a label: the destination and how many bits to
  // shift off, or why the packet cannot be switched.
  datatype Verdict = Pass(dest: bv64, bits: nat) | Fail(why: Refusal)

  // A packet leaves through dest with a new label, or an error packet goes back
  // out of the interface the packet came from.
  datatype Switching = Sent(dest: bv64, lab: bv64) | Returned(why: Refusal, errorLabel: bv64)

  // 0001, the only code of the router that a switch accepts.
  predicate EndsInRouterCode(lab: bv64) {
    lab & 0xF == 1
  }

  // Nothing but the router's code in the lowest bits.
  predicate HasOnlyDiscriminator(lab: bv64, bits: nat)
    requires bits <= 64
  {
    Low(lab ^ 1, bits) == 0
  }

  // The router's own code is never too wide (RouterCodeIsNarrow), so the branch
  // of the original for a wide router code has no counterpart here.
  function Decide(sch: Scheme, source: bv64, lab: bv64): Verdict
    requires IsInterface(sch, source)
  {
    var bits := BitsUsedForLabel(sch, lab);
    var dest := GetDecompressed(sch, lab, bits);
    var sourceBits := BitsUsedForNumber(sch, source);
    if dest == ROUTER && !EndsInRouterCode(lab) then Fail(WrongDiscriminator)
    else if sourceBits <= bits then Pass(dest, bits)
    else if dest == ROUTER then
      if !HasOnlyDiscriminator(lab, sourceBits) then Fail(NoReturnPath) else Pass(dest, sourceBits)
    else Fail(SourceTooLarge)
  }

  // A code of the given width put below what is left of a label.
  function Prepend(rest: bv64, bits: nat, code: bv64): bv64
  {
    Or(Shl(rest, bits), code)
  }

  // Shift the destination code off the low end and put the source code, bit
  // reversed, in at the high end.
  function Shift(lab: bv64, bits: nat, sourceCode: bv64): bv64
  {
    Or(Shr(lab, bits), Reverse(sourceCode))
  }

  function Forward(sch: Scheme, occupied: bv64 -> bool, source: bv64, lab: bv64): Switching
    requires IsInterface(sch, source)
  {
    match Decide(sch, source, lab)
    case Fail(why) => Returned(why, Reverse(lab))
    case Pass(dest, bits) =>
      if !occupied(dest) then Returned(NoInterface, Reverse(lab))
      else Sent(dest, Shift(lab, bits, GetCompressed(sch, source, bits)))
  }

  // ------------------------------------------------------------- what Decide says

  lemma RouterCodeIsNarrow(sch: Scheme, lab: bv64)
    ensures BitsUsedForNumber(sch, ROUTER) <= BitsUsedForLabel(sch, lab)
  {}

  // The discriminator check never refuses anything: a label that decodes to the
  // router always ends in 0001.
  lemma DiscriminatorIsNeverWrong(sch: Scheme, source: bv64, lab: bv64)
    requires IsInterface(sch, source)
    ensures Decide(sch, source, lab) != Fail(WrongDiscriminator)
  {
    EveryLabelDecodes(sch, lab);
  }

  // A switched label holds the code of its destination in the bits shifted off,
  // and both interfaces can be written in that many bits.
  lemma PassMeans(sch: Scheme, source: bv64, lab: bv64, dest: bv64, bits: nat)
    requires IsInterface(sch, source) && Decide(sch, source, lab) == Pass(dest, bits)
    ensures IsInterface(sch, dest) && IsWidth(sch, bits) && bits <= 64
    ensures BitsUsedForNumber(sch, source) <= bits
    ensures BitsUsedForNumber(sch, dest) <= bits
    ensures Low(lab, bits) == GetCompressed(sch, dest, bits)
  {
    EveryLabelDecodes(sch, lab);
    if BitsUsedForNumber(sch, source) > BitsUsedForLabel(sch, lab) {
      OnlyDiscriminator(lab, bits);
    }
  }

  // Flipping the lowest bit clears the low end exactly where nothing but the
  // discriminator is in it.
  lemma FlippedBit(lab: bv64)
    ensures Under(lab ^ 1, 0xF) == 0 <==> Under(lab, 0xF) == 1
    ensures Under(lab ^ 1, 0x7F) == 0 <==> Under(lab, 0x7F) == 1
    ensures Under(lab ^ 1, 0xFF) == 0 <==> Under(lab, 0xFF) == 1
    ensures Under(lab ^ 1, 0x3FF) == 0 <==> Under(lab, 0x3FF) == 1
  {}

  lemma NarrowerMask(lab: bv64, wide: bv64, narrow: bv64)
    requires Under(lab, wide) == 1 && wide & narrow == narrow && 1 & narrow == 1
    ensures Under(lab, narrow) == 1
  {
    assert lab & narrow == (lab & wide) & narrow;
  }

  lemma OnlyDiscriminator(lab: bv64, bits: nat)
    requires bits == 4 || bits == 7 || bits == 8 || bits == 10
    ensures HasOnlyDiscriminator(lab, bits) <==> Low(lab, bits) == 1
    ensures Low(lab, bits) == 1 ==> lab & 0xF == 1
  {
    FlippedBit(lab);
    hide Low;
    LowValue(lab, bits);
    LowValue(lab ^ 1, bits);
    if Low(lab, bits) == 1 {
      NarrowerMask(lab, CodeMask(bits), 0xF);
    }
  }

  // A packet is refused exactly when the code of its source needs more bits than are
  // shifted off: for a peer those of the code that was read, for the router as many as
  // the discriminator and the zeros above it make room for.
  lemma RefusedExactly(sch: Scheme, source: bv64, lab: bv64)
    requires IsInterface(sch, source)
    ensures var bits := BitsUsedForLabel(sch, lab);
            var sourceBits := BitsUsedForNumber(sch, source);
            && sourceBits <= 64
            && (Decide(sch, source, lab).Fail? <==>
                  sourceBits > bits && (GetDecompressed(sch, lab, bits) != ROUTER || Low(lab, sourceBits) != 1))
  {
    EveryLabelDecodes(sch, lab);
    hide GetDecompressed, GetCompressed, Low, Interfaces;
    OnlyDiscriminator(lab, BitsUsedForNumber(sch, source));
  }

  lemma PeerCodePasses(sch: Scheme, source: bv64, lab: bv64, dest: bv64, bits: nat)
    requires IsInterface(sch, source) && dest != ROUTER
    requires CodeAt(sch, lab, dest, bits) && BitsUsedForNumber(sch, source) <= bits
    ensures Decide(sch, source, lab) == Pass(dest, bits)
  {}

  lemma NarrowerDiscriminator(lab: bv64, wide: nat, narrow: nat)
    requires 4 <= narrow <= wide <= 10
    requires Low(lab, wide) == 1
    requires narrow == 4 || narrow == 7 || narrow == 8 || narrow == 10
    requires wide == 4 || wide == 7 || wide == 8 || wide == 10
    ensures Low(lab, narrow) == 1
  {
    hide Low, Under;
    LowValue(lab, wide);
    LowValue(lab, narrow);
    NarrowerMask(lab, CodeMask(wide), CodeMask(narrow));
  }

  lemma RouterCodePasses(sch: Scheme, source: bv64, lab: bv64, bits: nat)
    requires IsInterface(sch, source) && IsWidth(sch, bits)
    requires Low(lab, bits) == 1 && BitsUsedForNumber(sch, source) <= bits
    ensures Decide(sch, source, lab) == Pass(ROUTER, BitsUsedForNumber(sch, source))
  {
    var sourceBits := BitsUsedForNumber(sch, source);
    NarrowerDiscriminator(lab, bits, sourceBits);
    OnlyDiscriminator(lab, sourceBits);
    EveryLabelDecodes(sch, lab);
  }

  // ------------------------------------------------------------- codes and words

  lemma Words4(x: bv64, code: bv64)
    requires Under(code, 0xF) == code
    ensures Under(Or(Left(x, 4), code), 0xF) == code
    ensures Right(code, 4) == 0
    ensures Or(Left(Right(x, 4), 4), Under(x, 0xF)) == x
  {}

  lemma Words7(x: bv64, code: bv64)
    requires Under(code, 0x7F) == code
    ensures Under(Or(Left(x, 7), code), 0x7F) == code
    ensures Right(code, 7) == 0
    ensures Or(Left(Right(x, 7), 7), Under(x, 0x7F)) == x
  {}

  lemma Words8(x: bv64, code: bv64)
    requires Under(code, 0xFF) == code
    ensures Under(Or(Left(x, 8), code), 0xFF) == code
    ensures Right(code, 8) == 0
    ensures Or(Left(Right(x, 8), 8), Under(x, 0xFF)) == x
  {}

  lemma Words10(x: bv64, code: bv64)
    requires Under(code, 0x3FF) == code
    ensures Under(Or(Left(x, 10), code), 0x3FF) == code
    ensures Right(code, 10) == 0
    ensures Or(Left(Right(x, 10), 10), Under(x, 0x3FF)) == x
  {}

  // A code put below the rest of a label is found there, and nothing is left of it when
  // it is shifted off.
  lemma PrependedCode(rest: bv64, bits: nat, code: bv64)
    requires bits == 4 || bits == 7 || bits == 8 || bits == 10
    requires Low(code, bits) == code
    ensures Low(Prepend(rest, bits, code), bits) == code && Shr(code, bits) == 0
  {
    hide Low, Shr, Shl, Under, Left, Right, Or;
    LowValue(code, bits);
    LowValue(Prepend(rest, bits, code), bits);
    ShrValues(code);
    ShlValues(rest);
    if bits == 4 {
      Words4(rest, code);
    } else if bits == 7 {
      Words7(rest, code);
    } else if bits == 8 {
      Words8(rest, code);
    } else {
      Words10(rest, code);
    }
  }

  lemma ZeroIsCode(bits: nat)
    requires bits <= 64
    ensures Low(0, bits) == 0 && Reverse(0) == 0 && Shl(0, bits) == 0
  {
    ShlOfZero(bits);
  }

  lemma {:induction false} ShlOfZero(k: nat)
    ensures Shl(0, k) == 0
  {
    if k > 0 {
      ShlOfZero(k - 1);
    }
  }

  // A label is its first code below its rest.
  lemma PrependedOwnCode(lab: bv64, bits: nat)
    requires bits == 4 || bits == 7 || bits == 8 || bits == 10
    ensures Prepend(Shr(lab, bits), bits, Low(lab, bits)) == lab
  {
    ZeroIsCode(bits);
    hide Low, Shr, Shl, Under, Left, Right, Or, Reverse;
    LowValue(0, bits);
    LowValue(lab, bits);
    ShrValues(lab);
    ShlValues(Shr(lab, bits));
    if bits == 4 {
      Words4(lab, 0);
    } else if bits == 7 {
      Words7(lab, 0);
    } else if bits == 8 {
      Words8(lab, 0);
    } else {
      Words10(lab, 0);
    }
  }

  lemma ReverseThenRight4(x: bv64)
    ensures Reverse(Right(Reverse(x), 4)) == Left(x, 4)
  {}

  lemma ReverseThenRight7(x: bv64)
    ensures Reverse(Right(Reverse(x), 7)) == Left(x, 7)
  {}

  lemma ReverseThenRight8(x: bv64)
    ensures Reverse(Right(Reverse(x), 8)) == Left(x, 8)
  {}

  lemma ReverseThenRight10(x: bv64)
    ensures Reverse(Right(Reverse(x), 10)) == Left(x, 10)
  {}

  // Reversed, what is left of a label is the reversed label moved up.
  lemma ReversedRest(x: bv64, bits: nat)
    requires bits == 4 || bits == 7 || bits == 8 || bits == 10
    ensures Reverse(Shr(x, bits)) == Shl(Reverse(x), bits)
  {
    hide Shr, Shl, Reverse, Left, Right;
    ShrValues(x);
    ShlValues(Reverse(x));
    ReverseIsInvolution(x);
    if bits == 4 {
      ReverseThenRight4(Reverse(x));
    } else if bits == 7 {
      ReverseThenRight7(Reverse(x));
    } else if bits == 8 {
      ReverseThenRight8(Reverse(x));
    } else {
      ReverseThenRight10(Reverse(x));
    }
  }

  lemma OrDistributes(x: bv64, y: bv64)
    ensures Reverse(Or(x, y)) == Or(Reverse(x), Reverse(y))
  {
    hide Reverse;
    ReverseOfOr(x, y);
  }

  // A switched label, reversed, is the reversed label below which the code of the
  // source was put.
  lemma ReversedShift(lab: bv64, bits: nat, code: bv64)
    requires bits == 4 || bits == 7 || bits == 8 || bits == 10
    ensures Reverse(Shift(lab, bits, code)) == Prepend(Reverse(lab), bits, code)
  {
    hide Shr, Shl, Reverse, Or;
    OrDistributes(Shr(lab, bits), Reverse(code));
    ReversedRest(lab, bits);
    ReverseIsInvolution(code);
  }

  lemma OrZero(x: bv64)
    ensures Or(x, 0) == x
  {}

  lemma LeftDistributes(x: bv64, y: bv64)
    ensures Left(Or(x, y), 1) == Or(Left(x, 1), Left(y, 1))
  {}

  lemma {:induction false} ShlDistributes(x: bv64, y: bv64, k: nat)
    ensures Shl(Or(x, y), k) == Or(Shl(x, k), Shl(y, k))
  {
    hide Or, Left;
    if k > 0 {
      ShlDistributes(x, y, k - 1);
      LeftDistributes(Shl(x, k - 1), Shl(y, k - 1));
    }
  }

  // The code of the source, at the high end, is moved out of a label by a code of the
  // same width at the low end.
  lemma SourceCodeIsMovedOut(rest: bv64, bits: nat, code: bv64, low: bv64)
    requires bits == 4 || bits == 7 || bits == 8 || bits == 10
    requires Low(code, bits) == code
    ensures Prepend(Or(rest, Reverse(code)), bits, low) == Prepend(rest, bits, low)
  {
    PrependedCode(rest, bits, code);
    ReversedRest(code, bits);
    ZeroIsCode(bits);
    hide Low, Shr, Shl, Reverse, Or;
    ShlDistributes(rest, Reverse(code), bits);
    OrZero(Shl(rest, bits));
  }

  // What a switched label, reversed, holds: the code of the source at its low end; and
  // shifting that off while pushing the destination code gives the reversed original.
  lemma ShiftBack(lab: bv64, bits: nat, code: bv64)
    requires bits == 4 || bits == 7 || bits == 8 || bits == 10
    requires Low(code, bits) == code
    ensures var back := Reverse(Shift(lab, bits, code));
            Low(back, bits) == code && Shift(back, bits, Low(lab, bits)) == Reverse(lab)
  {
    hide Low, Shr, Shl, Reverse, Or, Prepend;
    var back := Reverse(Shift(lab, bits, code));
    ReversedShift(lab, bits, code);
    PrependedCode(Reverse(lab), bits, code);
    ReversedShift(back, bits, Low(lab, bits));
    ReverseIsInvolution(Shift(lab, bits, code));
    SourceCodeIsMovedOut(Shr(lab, bits), bits, code, Low(lab, bits));
    PrependedOwnCode(lab, bits);
    ReverseIsInvolution(Shift(back, bits, Low(lab, bits)));
  }


  // --------------------------------------------------------- the per-hop inverse

  // Between peers, and for packets to the router: fed back in at the interface
  // it left through, the reversed label leaves through the interface the packet
  // came from, as the reversed original label.
  lemma PeerHopInverse(sch: Scheme, source: bv64, lab: bv64, dest: bv64, bits: nat)
    requires IsInterface(sch, source) && source != ROUTER && bits <= 64
    requires Decide(sch, source, lab) == Pass(dest, bits)
    ensures var back := Reverse(Shift(lab, bits, GetCompressed(sch, source, bits)));
            && IsInterface(sch, dest)
            && Decide(sch, dest, back) == Pass(source, bits)
            && Shift(back, bits, GetCompressed(sch, dest, bits)) == Reverse(lab)
  {
    hide Reverse, Shift, GetCompressed, GetDecompressed, Decide, Low, CodeAt;
    PassMeans(sch, source, lab, dest, bits);
    CodeFits(sch, source, bits);
    ShiftBack(lab, bits, GetCompressed(sch, source, bits));
    var back := Reverse(Shift(lab, bits, GetCompressed(sch, source, bits)));
    CodesArePrefixCode(sch, source, bits, back);
    PeerCodePasses(sch, dest, back, source, bits);
  }

  // The same label with the first code rewritten in its canonical, narrowest
  // width: what a node can tell of the label its packet was sent with.
  function Canonical(sch: Scheme, lab: bv64): bv64 {
    var bits := BitsUsedForLabel(sch, lab);
    var dest := GetDecompressed(sch, lab, bits);
    var narrow := BitsUsedForNumber(sch, dest);
    Prepend(Shr(lab, bits), narrow, GetCompressed(sch, dest, narrow))
  }

  lemma RouterCodeIsOne(sch: Scheme, bits: nat)
    ensures GetCompressed(sch, ROUTER, bits) == 1
    ensures IsInterface(sch, ROUTER)
  {}

  lemma RouterCodeComesBack(sch: Scheme, lab: bv64, bits: nat)
    requires IsWidth(sch, bits)
    ensures Low(Reverse(Shift(lab, bits, 1)), bits) == 1
  {
    OneFits(bits);
    ShiftBack(lab, bits, 1);
  }

  lemma OneFits(bits: nat)
    requires bits == 4 || bits == 7 || bits == 8 || bits == 10
    ensures Low(1, bits) == 1
  {
    hide Low;
    LowValue(1, bits);
  }

  // From a router to a peer: the reversed label is accepted for the router ...
  lemma RouterHopReturns(sch: Scheme, lab: bv64, dest: bv64, bits: nat)
    requires IsInterface(sch, ROUTER)
    requires IsInterface(sch, dest) && IsWidth(sch, bits) && BitsUsedForNumber(sch, dest) <= bits
    ensures Decide(sch, dest, Reverse(Shift(lab, bits, 1))) == Pass(ROUTER, BitsUsedForNumber(sch, dest))
  {
    RouterCodeComesBack(sch, lab, bits);
    RouterCodePasses(sch, dest, Reverse(Shift(lab, bits, 1)), bits);
  }

  // ... and the answer carries the label that was sent, except that its first
  // code is rewritten in the given width.
  lemma RouterGetsPrepended(lab: bv64, bits: nat, narrow: nat, code: bv64)
    requires narrow == 4 || narrow == 7 || narrow == 8 || narrow == 10
    requires bits <= 64
    ensures Reverse(Shift(Reverse(Shift(lab, bits, 1)), narrow, code)) == Prepend(Shr(lab, bits), narrow, code)
  {
    hide Shr, Prepend, Reverse, Or, Low;
    var sent := Shift(lab, bits, 1);
    ReversedShift(Reverse(sent), narrow, code);
    ReverseIsInvolution(sent);
    OneFits(narrow);
    SourceCodeIsMovedOut(Shr(lab, bits), narrow, 1, code);
  }

  // The router's packets are always switched by the bits of the label itself.
  lemma RouterPassMeans(sch: Scheme, lab: bv64, dest: bv64, bits: nat)
    requires IsInterface(sch, ROUTER) && Decide(sch, ROUTER, lab) == Pass(dest, bits)
    ensures bits == BitsUsedForLabel(sch, lab) && dest == GetDecompressed(sch, lab, bits)
    ensures IsInterface(sch, dest) && IsWidth(sch, bits) && BitsUsedForNumber(sch, dest) <= bits
  {
    hide GetDecompressed, GetCompressed, Low;
    RouterCodeIsNarrow(sch, lab);
    EveryLabelDecodes(sch, lab);
  }

  // The whole way out and back between a router and the switch of its own node.
  lemma RouterHopInverse(sch: Scheme, lab: bv64, dest: bv64, bits: nat)
    requires IsInterface(sch, ROUTER) && bits <= 64
    requires Decide(sch, ROUTER, lab) == Pass(dest, bits)
    ensures var back := Reverse(Shift(lab, bits, GetCompressed(sch, ROUTER, bits)));
            var narrow := BitsUsedForNumber(sch, dest);
            && IsInterface(sch, dest) && narrow <= 64
            && Decide(sch, dest, back) == Pass(ROUTER, narrow)
            && Shift(back, narrow, GetCompressed(sch, dest, narrow)) == Reverse(Canonical(sch, lab))
  {
    hide Reverse, Shift, Prepend, GetCompressed, GetDecompressed, Shr, Decide, BitsUsedForLabel;
    var narrow := BitsUsedForNumber(sch, dest);
    RouterPassMeans(sch, lab, dest, bits);
    RouterCodeIsOne(sch, bits);
    RouterHopReturns(sch, lab, dest, bits);
    RouterGetsPrepended(lab, bits, narrow, GetCompressed(sch, dest, narrow));
    ReverseIsInvolution(Shift(Reverse(Shift(lab, bits, 1)), narrow, GetCompressed(sch, dest, narrow)));
  }

  // The label comes back unchanged exactly when its first code already had the
  // canonical width.
  lemma CanonicalUnchanged(sch: Scheme, lab: bv64)
    ensures var bits := BitsUsedForLabel(sch, lab);
            var dest := GetDecompressed(sch, lab, bits);
            Canonical(sch, lab) == lab <==> bits == BitsUsedForNumber(sch, dest)
  {
    var bits := BitsUsedForLabel(sch, lab);
    var dest := GetDecompressed(sch, lab, bits);
    var narrow := BitsUsedForNumber(sch, dest);
    EveryLabelDecodes(sch, lab);
    CodeFits(sch, dest, narrow);
    if bits == narrow {
      PrependedOwnCode(lab, bits);
    } else {
      PrependedCode(Shr(lab, bits), narrow, GetCompressed(sch, dest, narrow));
      CodesArePrefixCode(sch, dest, narrow, Canonical(sch, lab));
    }
  }
}
