// The three schemes of switch/NumberCompress.h: how an interface number is
// written into the low end of a label and read back.

module NumberCompress {
  import opened LabelBits

  // CJDNS_MAX_PEERS selects one scheme when a node is compiled.
  datatype Scheme = Four | Eight | Dyn

  function Interfaces(sch: Scheme): bv64 {
    match sch
    case Four => 16
    case Eight => 241
    case Dyn => 257
  }

  predicate IsInterface(sch: Scheme, number: bv64) {
    number < Interfaces(sch)
  }

  function BitsUsedForLabel(sch: Scheme, lab: bv64): nat {
    match sch
    case Four => 4
    case Eight => if lab & 0xF == 1 then 4 else 8
    case Dyn => if lab & 1 != 0 then 4 else if lab & 2 != 0 then 7 else 10
  }

  function BitsUsedForNumber(sch: Scheme, number: bv64): nat {
    match sch
    case Four => 4
    case Eight => if number == 1 then 4 else 8
    case Dyn => if number < 8 then 4 else if number < 33 then 7 else 10
  }

  function GetCompressed(sch: Scheme, number: bv64, bitsUsed: nat): bv64 {
    match sch
    case Four => number
    case Eight =>
      if number == 1 then 1
      else if number == 240 then 0x10
      else
        var low := number & 0xF;
        var high := (number >> 4) & 0xF;
        (low << 4) + (if high > 0 then high + 1 else high)
    case Dyn =>
      if number == 1 then 1
      else if bitsUsed == 4 then if number == 0 then 3 else (number << 1) | 1
      else if bitsUsed == 7 then if number == 0 then 2 else ((number - 1) << 2) | 2
      else if bitsUsed == 10 then if number == 0 then 0 else (number - 1) << 2
      else 0
  }

  function GetDecompressed(sch: Scheme, lab: bv64, bitsUsed: nat): bv64 {
    match sch
    case Four => lab & 0xF
    case Eight =>
      var low := lab & 0xF;
      if low == 1 then 1
      else if lab & 0xFF == 0x10 then 240
      else
        var high := (lab >> 4) & 0xF;
        ((if low > 0 then low - 1 else low) << 4) + high
    case Dyn =>
      if bitsUsed == 4 then
        var number := (lab >> 1) & 7;
        if number == 0 then 1 else if number == 1 then 0 else number
      else if bitsUsed == 7 then
        var number := (lab >> 2) & 0x1F;
        if number != 0 then number + 1 else number
      else if bitsUsed == 10 then
        var number := (lab >> 2) & 0xFF;
        if number != 0 then number + 1 else number
      else 0
  }

  // The widths a code can have.
  predicate IsWidth(sch: Scheme, width: nat) {
    match sch
    case Four => width == 4
    case Eight => width == 4 || width == 8
    case Dyn => width == 4 || width == 7 || width == 10
  }

  // The lowest bits of a label, UINT64_MAX >> (64 - width) masked out.
  function Low(lab: bv64, width: nat): bv64
    requires width <= 64
  {
    Under(lab, Mask(width))
  }

  // The masks for the widths that codes have.
  function CodeMask(width: nat): bv64 {
    if width == 4 then 0xF else if width == 7 then 0x7F else if width == 8 then 0xFF else 0x3FF
  }

  lemma LowValue(lab: bv64, width: nat)
    requires width == 4 || width == 7 || width == 8 || width == 10
    ensures Low(lab, width) == Under(lab, CodeMask(width))
  {
    hide Mask, Under;
    MasksOfCodes();
  }

  // The low end of the label is a code for this number, width bits wide.
  predicate CodeAt(sch: Scheme, lab: bv64, number: bv64, width: nat) {
    && IsInterface(sch, number)
    && IsWidth(sch, width)
    && BitsUsedForNumber(sch, number) <= width
    && BitsUsedForLabel(sch, lab) == width
    && GetDecompressed(sch, lab, width) == number
  }

  // ------------------------------------------------ every label starts with a code

  lemma DecodesFour(lab: bv64)
    ensures CodeAt(Four, lab, GetDecompressed(Four, lab, 4), 4)
    ensures GetCompressed(Four, GetDecompressed(Four, lab, 4), 4) == Under(lab, 0xF)
    ensures GetDecompressed(Four, lab, 4) == 1 <==> lab & 0xF == 1
  {}

  lemma DecodesEight(lab: bv64)
    ensures var width := BitsUsedForLabel(Eight, lab);
            var number := GetDecompressed(Eight, lab, width);
            && CodeAt(Eight, lab, number, width)
            && GetCompressed(Eight, number, width) == Under(lab, CodeMask(width))
            && (number == 1 <==> lab & 0xF == 1)
  {}

  lemma DecodesDyn(lab: bv64)
    ensures var width := BitsUsedForLabel(Dyn, lab);
            var number := GetDecompressed(Dyn, lab, width);
            && CodeAt(Dyn, lab, number, width)
            && GetCompressed(Dyn, number, width) == Under(lab, CodeMask(width))
            && (number == 1 <==> lab & 0xF == 1)
            && (number == 1 ==> width == 4)
  {}

  // Whatever the label, its low end decodes to an interface in range whose code
  // is exactly those bits; only 0001 stands for the router.
  lemma EveryLabelDecodes(sch: Scheme, lab: bv64)
    ensures var width := BitsUsedForLabel(sch, lab);
            var number := GetDecompressed(sch, lab, width);
            && CodeAt(sch, lab, number, width)
            && GetCompressed(sch, number, width) == Low(lab, width)
            && (number == 1 <==> lab & 0xF == 1)
            && (number == 1 ==> width == 4)
  {
    hide GetCompressed, GetDecompressed, Low, Under;
    match sch
    case Four =>
      DecodesFour(lab);
      LowValue(lab, 4);
    case Eight =>
      DecodesEight(lab);
      LowValue(lab, BitsUsedForLabel(sch, lab));
    case Dyn =>
      DecodesDyn(lab);
      LowValue(lab, BitsUsedForLabel(sch, lab));
  }

  // ------------------------------------------------------ codes are a prefix code

  lemma PrefixFour(number: bv64, lab: bv64)
    requires number < 16
    requires Under(lab, 0xF) == GetCompressed(Four, number, 4)
    ensures CodeAt(Four, lab, number, 4)
  {}

  lemma PrefixEight(number: bv64, lab: bv64)
    requires number < 241 && number != 1
    requires Under(lab, 0xFF) == GetCompressed(Eight, number, 8)
    ensures CodeAt(Eight, lab, number, 8)
  {}

  lemma PrefixDyn(number: bv64, width: nat, lab: bv64)
    requires number < 257 && number != 1 && IsWidth(Dyn, width)
    requires BitsUsedForNumber(Dyn, number) <= width
    requires Under(lab, CodeMask(width)) == GetCompressed(Dyn, number, width)
    ensures CodeAt(Dyn, lab, number, width)
  {
    if width == 4 {
    } else if width == 7 {
    } else {
    }
  }

  // A number written with any width that is large enough for it is read back
  // from every label that has those bits at its low end, whatever follows.
  lemma CodesArePrefixCode(sch: Scheme, number: bv64, width: nat, lab: bv64)
    requires IsInterface(sch, number) && number != 1 && IsWidth(sch, width)
    requires BitsUsedForNumber(sch, number) <= width
    requires Low(lab, width) == GetCompressed(sch, number, width)
    ensures CodeAt(sch, lab, number, width)
  {
    hide GetCompressed, GetDecompressed, Low, Under;
    LowValue(lab, width);
    match sch
    case Four => PrefixFour(number, lab);
    case Eight => PrefixEight(number, lab);
    case Dyn => PrefixDyn(number, width, lab);
  }

  lemma FitsFour(number: bv64)
    requires number < 16
    ensures Under(number, 0xF) == number
  {}

  lemma FitsEight(number: bv64, width: nat)
    requires number < 241 && (width == 8 || (width == 4 && number == 1))
    ensures Under(GetCompressed(Eight, number, width), CodeMask(width)) == GetCompressed(Eight, number, width)
  {}

  lemma FitsDyn(number: bv64, width: nat)
    requires number < 257 && IsWidth(Dyn, width) && BitsUsedForNumber(Dyn, number) <= width
    ensures Under(GetCompressed(Dyn, number, width), CodeMask(width)) == GetCompressed(Dyn, number, width)
  {}

  // A code occupies no more than its width.
  lemma CodeFits(sch: Scheme, number: bv64, width: nat)
    requires IsInterface(sch, number) && IsWidth(sch, width)
    requires BitsUsedForNumber(sch, number) <= width
    ensures Low(GetCompressed(sch, number, width), width) == GetCompressed(sch, number, width)
  {
    hide Low, Under;
    LowValue(GetCompressed(sch, number, width), width);
    match sch
    case Four => FitsFour(number);
    case Eight => FitsEight(number, width);
    case Dyn => FitsDyn(number, width);
  }

  // -------------------------------------------------- the table of the dynamic scheme

  // The number that the data bits of a code stand for: in the narrowest code 0 and 1 change
  // places, in the wider ones there is no 1.
  predicate IsData(data: bv64, number: bv64, width: nat) {
    if width == 4 then
      if number == 0 then data == 1 else if number == 1 then data == 0 else data == number
    else
      if number == 0 then data == 0 else number != 1 && data + 1 == number
  }

  // The suffix tells the width: a single 1 for three bits of data, 10 for five and 00 for
  // eight.  The router's code is 0001 whatever the width.
  lemma CodesOfDyn(number: bv64, width: nat)
    requires IsInterface(Dyn, number) && IsWidth(Dyn, width) && BitsUsedForNumber(Dyn, number) <= width
    ensures var code := GetCompressed(Dyn, number, width);
            && (number == ROUTER_NUMBER ==> code == 1)
            && (width == 4 ==> code & 1 == 1 && IsData(code >> 1, number, 4))
            && (number != ROUTER_NUMBER && width == 7 ==> code & 3 == 2 && IsData(code >> 2, number, 7))
            && (number != ROUTER_NUMBER && width == 10 ==> code & 3 == 0 && IsData(code >> 2, number, 10))
  {}

  const ROUTER_NUMBER: bv64 := 1

  // The narrowest code is taken: three bits hold the numbers up to 7, five those up to 32.
  lemma NarrowestOfDyn(number: bv64)
    requires IsInterface(Dyn, number)
    ensures BitsUsedForNumber(Dyn, number) == 4 <==> number <= 7
    ensures BitsUsedForNumber(Dyn, number) == 7 <==> 8 <= number <= 32
    ensures BitsUsedForNumber(Dyn, number) == 10 <==> 33 <= number <= 256
  {}

  // The scheme of 8 bits: the low four bits of a number above its high four, which are
  // counted from 2 on, so that they are never 1; and the last number takes the code that
  // this leaves.
  lemma CodesOfEight(number: bv64)
    requires IsInterface(Eight, number) && number != ROUTER_NUMBER
    ensures var code := GetCompressed(Eight, number, 8);
            && code <= 0xFF && code & 0xF != 1
            && (number == 240 ==> code == 0x10)
            && (number < 16 ==> code == number << 4)
            && (16 <= number < 240 ==> code >> 4 == number & 0xF && (code & 0xF) == (number >> 4) + 1)
  {}
}
