// The Internet checksum of util/Checksum.h: RFC 1071, section 2, computed on words
// in the byte order of the host.

module Checksum {
  import opened Bytes
  import opened LittleEndian

  const WORD32: nat := 0x1_0000_0000

  // What a 32-bit accumulator holds.
  function Wrap(n: nat): nat {
    n % WORD32
  }

  // The 16-bit word that two bytes of memory are for a host.
  function Word(host: Host, first: byte, second: byte): nat {
    match host
    case LittleEndian => first as nat + 256 * second as nat
    case BigEndian => 256 * first as nat + second as nat
  }

  // The words of some bytes; an odd last byte is the first of a word that ends in 0.
  function Sum(host: Host, bytes: seq<byte>): nat {
    if bytes == [] then 0
    else if |bytes| == 1 then Word(host, bytes[0], 0)
    else Word(host, bytes[0], bytes[1]) + Sum(host, bytes[2..])
  }

  // Two bytes of memory for a word.
  function Wire(host: Host, word: nat): seq<byte>
    requires word < 65536
  {
    match host
    case LittleEndian => [(word % 256) as byte, (word / 256) as byte]
    case BigEndian => [(word / 256) as byte, (word % 256) as byte]
  }

  // --------------------------------------------------- one's complement arithmetic

  // Addition with the carry taken around to the low end.
  function AddAround(a: nat, b: nat): nat {
    if a + b > 0xFFFF then a + b - 0xFFFF else a + b
  }

  function SumAround(host: Host, bytes: seq<byte>): nat {
    if bytes == [] then 0
    else if |bytes| == 1 then Word(host, bytes[0], 0)
    else AddAround(Word(host, bytes[0], bytes[1]), SumAround(host, bytes[2..]))
  }

  // The representative from 1 to 0xFFFF of a sum that is not 0.
  function Norm(n: nat): (r: nat)
    ensures r <= 0xFFFF
  {
    if n == 0 then 0 else (n - 1) % 0xFFFF + 1
  }

  lemma NormIs(n: nat, r: nat, k: int)
    requires 1 <= r <= 0xFFFF && n == r + 0xFFFF * k && n > 0
    ensures Norm(n) == r
  {}

  lemma NormDiffers(n: nat) returns (k: int)
    ensures n == Norm(n) + 0xFFFF * k && (n > 0 ==> Norm(n) >= 1)
  {
    k := if n == 0 then 0 else (n - 1) / 0xFFFF;
  }

  lemma NormOfSum(a: nat, b: nat)
    ensures Norm(a + b) == Norm(a + Norm(b))
  {
    var k := NormDiffers(b);
    if a + b > 0 {
      var j := NormDiffers(a + Norm(b));
      NormIs(a + b, Norm(a + Norm(b)), j + k);
    }
  }

  lemma AroundIsNorm(a: nat, b: nat)
    requires a <= 0xFFFF && b <= 0xFFFF
    ensures AddAround(a, b) == Norm(a + b)
  {}

  lemma WordIsSmall(host: Host, bytes: seq<byte>)
    ensures |bytes| == 1 ==> Word(host, bytes[0], 0) <= 0xFFFF
    ensures |bytes| > 1 ==> Word(host, bytes[0], bytes[1]) <= 0xFFFF
  {}

  // Adding with the carry taken around, word by word, is adding first and folding the
  // carries in afterwards.
  lemma {:induction false} SumsAgree(host: Host, bytes: seq<byte>)
    ensures SumAround(host, bytes) == Norm(Sum(host, bytes))
  {
    WordIsSmall(host, bytes);
    hide Word;
    if |bytes| > 1 {
      SumsAgree(host, bytes[2..]);
      AroundIsNorm(Word(host, bytes[0], bytes[1]), Norm(Sum(host, bytes[2..])));
      NormOfSum(Word(host, bytes[0], bytes[1]), Sum(host, bytes[2..]));
    }
  }

  // An odd last byte counts as if a zero byte came after it.
  lemma {:induction false} OddIsPadded(host: Host, bytes: seq<byte>)
    requires |bytes| % 2 == 1
    ensures Sum(host, bytes) == Sum(host, bytes + [0])
  {
    if |bytes| > 1 {
      assert (bytes + [0])[2..] == bytes[2..] + [0];
      OddIsPadded(host, bytes[2..]);
    } else {
      assert (bytes + [0])[2..] == [];
    }
  }

  // The 32-bit accumulator has room for the words of the longest packet, with those of
  // a pseudo-header.
  lemma {:induction false} SumIsBounded(host: Host, bytes: seq<byte>)
    ensures Sum(host, bytes) <= (|bytes| + 1) / 2 * 0xFFFF
  {
    if |bytes| > 1 {
      SumIsBounded(host, bytes[2..]);
    }
  }

  function Complement(word: nat): nat
    requires word <= 0xFFFF
  {
    0xFFFF - word
  }

  // The checksum as RFC 1071 defines it.
  function Rfc1071(host: Host, bytes: seq<byte>): (r: nat)
    ensures r <= 0xFFFF
  {
    SumsAgree(host, bytes);
    Complement(SumAround(host, bytes))
  }

  // -------------------------------------------------------------------- the code

  method Step(host: Host, buffer: seq<byte>, state0: nat) returns (state: nat)
    requires state0 == Wrap(state0)
    ensures state == Wrap(state0 + Sum(host, buffer))
  {
    hide Word, Wrap;
    state := state0;
    var i := 0;
    ghost var exact: nat := state0;
    assert buffer[0..] == buffer;
    while i < |buffer| / 2
      invariant 0 <= i <= |buffer| / 2 && state == Wrap(exact)
      invariant exact + Sum(host, buffer[2 * i..]) == state0 + Sum(host, buffer)
    {
      SumFrom(host, buffer, 2 * i);
      AddWrapped(exact, Word(host, buffer[2 * i], buffer[2 * i + 1]));
      exact := exact + Word(host, buffer[2 * i], buffer[2 * i + 1]);
      state := Wrap(state + Word(host, buffer[2 * i], buffer[2 * i + 1]));
      i := i + 1;
    }
    if |buffer| % 2 != 0 {
      assert buffer[2 * i..] == [buffer[|buffer| - 1]];
      AddWrapped(exact, Word(host, buffer[|buffer| - 1], 0));
      state := Wrap(state + Word(host, buffer[|buffer| - 1], 0));
    }
  }

  lemma AddWrapped(a: nat, b: nat)
    ensures Wrap(Wrap(a) + b) == Wrap(a + b) && Wrap(Wrap(a)) == Wrap(a)
  {}

  lemma WrapFits(n: nat)
    requires n < WORD32
    ensures Wrap(n) == n
  {}

  lemma SumFrom(host: Host, bytes: seq<byte>, i: nat)
    requires i + 2 <= |bytes|
    ensures Sum(host, bytes[i..]) == Word(host, bytes[i], bytes[i + 1]) + Sum(host, bytes[i + 2..])
  {
    assert bytes[i..][2..] == bytes[i + 2..];
  }

  function Step32(content: nat, state: nat): nat {
    Wrap(state + content / 0x1_0000 + content % 0x1_0000)
  }

  method Complete(state0: nat) returns (r: nat)
    ensures r == Complement(Norm(state0)) && r <= 0xFFFF
  {
    var state := state0;
    while state > 0xFFFF
      invariant Norm(state) == Norm(state0)
      invariant state0 > 0 ==> state > 0
    {
      FoldKeepsNorm(state);
      state := state / 0x1_0000 + state % 0x1_0000;
    }
    r := 0xFFFF - state;
  }

  lemma FoldKeepsNorm(n: nat)
    requires n > 0xFFFF
    ensures Norm(n / 0x1_0000 + n % 0x1_0000) == Norm(n) && n / 0x1_0000 + n % 0x1_0000 < n
  {
    var k := NormDiffers(n / 0x1_0000 + n % 0x1_0000);
    NormIs(n, Norm(n / 0x1_0000 + n % 0x1_0000), k + n / 0x1_0000);
  }

  method Engine(host: Host, buffer: seq<byte>) returns (r: nat)
    requires |buffer| <= 0xFFFF
    ensures r == Rfc1071(host, buffer)
  {
    var state := Step(host, buffer, 0);
    SumIsBounded(host, buffer);
    WrapFits(Sum(host, buffer));
    SumsAgree(host, buffer);
    r := Complete(state);
  }

  // ---------------------------------------------------------------- pseudo-headers

  function Value32(host: Host, bytes: seq<byte>): nat
    requires |bytes| == 4
  {
    match host
    case LittleEndian => Word(host, bytes[0], bytes[1]) + 0x1_0000 * Word(host, bytes[2], bytes[3])
    case BigEndian => 0x1_0000 * Word(host, bytes[0], bytes[1]) + Word(host, bytes[2], bytes[3])
  }

  // A 32-bit number with its highest byte first.
  function BigEndian32(n: nat): (bytes: seq<byte>)
    requires n < WORD32
    ensures |bytes| == 4 && Held(BigEndian, bytes) == n
    ensures n == 0x100_0000 * bytes[0] as nat + 0x1_0000 * bytes[1] as nat + 0x100 * bytes[2] as nat + bytes[3] as nat
  {
    DigitsOf(n);
    FourBytes(
      [(n / 0x100_0000) as byte, (n / 0x1_0000 % 256) as byte, (n / 256 % 256) as byte, (n % 256) as byte]);
    [(n / 0x100_0000) as byte, (n / 0x1_0000 % 256) as byte, (n / 256 % 256) as byte, (n % 256) as byte]
  }

  lemma DigitsOf(n: nat)
    requires n < WORD32
    ensures n / 0x100_0000 < 256
    ensures n == 0x100_0000 * (n / 0x100_0000) + 0x1_0000 * (n / 0x1_0000 % 256) + 0x100 * (n / 256 % 256) + n % 256
  {
    assert n / 256 / 256 == n / 0x1_0000;
    assert n / 0x1_0000 / 256 == n / 0x100_0000;
  }

  // What a host makes of two and of four bytes of memory.
  lemma TwoBytesHeld(host: Host, bytes: seq<byte>)
    requires |bytes| == 2
    ensures Word(host, bytes[0], bytes[1]) == Held(host, bytes)
  {
    var b := Backwards(bytes);
    assert Decode(bytes[1..]) == bytes[1] as nat && Decode(b[1..]) == b[1] as nat;
  }

  lemma FourBytes(bytes: seq<byte>)
    requires |bytes| == 4
    ensures Decode(bytes)
         == bytes[0] as nat + 0x100 * bytes[1] as nat + 0x1_0000 * bytes[2] as nat + 0x100_0000 * bytes[3] as nat
    ensures Decode(Backwards(bytes))
         == bytes[3] as nat + 0x100 * bytes[2] as nat + 0x1_0000 * bytes[1] as nat + 0x100_0000 * bytes[0] as nat
  {
    FourDigits(bytes);
    FourDigits(Backwards(bytes));
  }

  lemma FourDigits(bytes: seq<byte>)
    requires |bytes| == 4
    ensures Decode(bytes)
         == bytes[0] as nat + 0x100 * bytes[1] as nat + 0x1_0000 * bytes[2] as nat + 0x100_0000 * bytes[3] as nat
  {
    hide Decode;
    FirstDigit(bytes, 0);
    FirstDigit(bytes, 1);
    FirstDigit(bytes, 2);
    FirstDigit(bytes, 3);
    assert bytes[0..] == bytes && bytes[4..] == [];
    NothingDecoded();
  }

  lemma FirstDigit(bytes: seq<byte>, i: nat)
    requires i < |bytes|
    ensures Decode(bytes[i..]) == bytes[i] as nat + 256 * Decode(bytes[i + 1..])
  {
    assert bytes[i..][1..] == bytes[i + 1..];
  }

  lemma NothingDecoded()
    ensures Decode([]) == 0
  {}

  lemma FourBytesHeld(host: Host, bytes: seq<byte>)
    requires |bytes| == 4
    ensures Value32(host, bytes) == Held(host, bytes)
  {
    FourBytes(bytes);
  }

  // Adding both halves of a 32-bit field adds its two words of memory.
  lemma Step32AddsWords(host: Host, bytes: seq<byte>, state: nat)
    requires |bytes| == 4
    ensures Step32(Value32(host, bytes), state) == Wrap(state + Sum(host, bytes))
  {
    WordIsSmall(host, bytes);
    WordIsSmall(host, bytes[2..]);
    hide Word;
    assert bytes[0..] == bytes && bytes[4..] == [];
    SumFrom(host, bytes, 0);
    SumFrom(host, bytes, 2);
    HalvesOf(Word(host, bytes[0], bytes[1]), Word(host, bytes[2], bytes[3]));
  }

  lemma HalvesOf(x: nat, y: nat)
    requires x < 0x1_0000 && y < 0x1_0000
    ensures (x + 0x1_0000 * y) / 0x1_0000 == y && (x + 0x1_0000 * y) % 0x1_0000 == x
    ensures (0x1_0000 * x + y) / 0x1_0000 == x && (0x1_0000 * x + y) % 0x1_0000 == y
  {}

  lemma {:induction false} SumOfBoth(host: Host, a: seq<byte>, b: seq<byte>)
    requires |a| % 2 == 0
    ensures Sum(host, a + b) == Sum(host, a) + Sum(host, b)
  {
    if a == [] {
      assert a + b == b;
    } else {
      assert (a + b)[2..] == a[2..] + b;
      SumOfBoth(host, a[2..], b);
    }
  }

  // What section 8.1 of RFC 2460 puts in front of the packet for the checksum.
  function PseudoHeader(addresses: seq<byte>, length: nat, packetType: seq<byte>): seq<byte>
    requires length < WORD32
  {
    addresses + BigEndian32(length) + packetType
  }

  // The words of the pseudo-header and the packet in network order: those of the addresses,
  // the length, the type and the packet.
  function NetworkSum(addresses: seq<byte>, packet: seq<byte>, packetType: seq<byte>): nat {
    Sum(BigEndian, addresses) + |packet| / 0x1_0000 + |packet| % 0x1_0000
    + Sum(BigEndian, packetType) + Sum(BigEndian, packet)
  }

  // The checksum stands on the wire as that of those words.
  lemma Ip6OnWire(host: Host, addresses: seq<byte>, packet: seq<byte>, packetType: seq<byte>)
    requires |addresses| == 32 && |packet| <= 0xFFFF && |packetType| == 4
    ensures var bytes := PseudoHeader(addresses, |packet|, packetType) + packet;
            && Sum(BigEndian, bytes) == NetworkSum(addresses, packet, packetType)
            && Wire(host, Rfc1071(host, bytes))
               == Wire(BigEndian, Complement(Norm(NetworkSum(addresses, packet, packetType))))
  {
    hide Sum, Wire, SumAround, BigEndian32, Norm;
    var bytes := PseudoHeader(addresses, |packet|, packetType) + packet;
    SumOfLength(|packet|);
    PiecesFit(BigEndian, addresses, BigEndian32(|packet|), packetType, packet);
    ByteOrderDoesNotMatter(bytes);
    SumsAgree(BigEndian, bytes);
  }

  lemma SumOfLength(n: nat)
    requires n < WORD32
    ensures Sum(BigEndian, BigEndian32(n)) == n / 0x1_0000 + n % 0x1_0000
  {
    hide BigEndian32, Held;
    var bytes := BigEndian32(n);
    assert bytes[0..] == bytes && bytes[4..] == [];
    SumFrom(BigEndian, bytes, 0);
    SumFrom(BigEndian, bytes, 2);
    HalvesOf(Word(BigEndian, bytes[0], bytes[1]), Word(BigEndian, bytes[2], bytes[3]));
  }

  // The sum over the pieces is the checksum of the pseudo-header and the packet.
  method Ip6(host: Host, addresses: seq<byte>, packet: seq<byte>, packetType: seq<byte>) returns (r: nat)
    requires |addresses| == 32 && |packet| <= 0xFFFF && |packetType| == 4
    ensures r == Rfc1071(host, PseudoHeader(addresses, |packet|, packetType) + packet)
    ensures Wire(host, r) == Wire(BigEndian, Complement(Norm(NetworkSum(addresses, packet, packetType))))
  {
    hide Sum, Value32, BigEndian32, SumAround, Step32, Norm, Wrap, Wire, NetworkSum, Held;
    Ip6OnWire(host, addresses, packet, packetType);
    WrapFits(0);
    var lengthBe := BigEndian32(|packet|);
    var sum := Step(host, addresses, 0);
    Step32AddsWords(host, lengthBe, sum);
    AddWrapped(Sum(host, addresses), Sum(host, lengthBe));
    sum := Step32(Value32(host, lengthBe), sum);
    Step32AddsWords(host, packetType, sum);
    AddWrapped(Sum(host, addresses) + Sum(host, lengthBe), Sum(host, packetType));
    sum := Step32(Value32(host, packetType), sum);
    AddWrapped(Sum(host, addresses) + Sum(host, lengthBe) + Sum(host, packetType), Sum(host, packet));
    sum := Step(host, packet, sum);
    PiecesFit(host, addresses, lengthBe, packetType, packet);
    WrapFits(Sum(host, PseudoHeader(addresses, |packet|, packetType) + packet));
    SumsAgree(host, PseudoHeader(addresses, |packet|, packetType) + packet);
    r := Complete(sum);
  }

  lemma PiecesFit(host: Host, a: seq<byte>, b: seq<byte>, c: seq<byte>, d: seq<byte>)
    requires |a| == 32 && |b| == |c| == 4 && |d| <= 0xFFFF
    ensures Sum(host, a + b + c + d) == Sum(host, a) + Sum(host, b) + Sum(host, c) + Sum(host, d) < WORD32
  {
    hide Sum;
    SumOfBoth(host, a + b + c, d);
    SumOfBoth(host, a + b, c);
    SumOfBoth(host, a, b);
    SumIsBounded(host, a + b + c + d);
  }

  // ---------------------------------------------------------------- checking again

  // Putting a word where there was a zero one adds it to the sum.
  lemma {:induction false} SumWithField(host: Host, bytes: seq<byte>, i: nat, word: nat)
    requires i % 2 == 0 && i + 1 < |bytes| && bytes[i] == bytes[i + 1] == 0 && word < 65536
    ensures Sum(host, WithField(host, bytes, i, word)) == Sum(host, bytes) + word
  {
    var filled := WithField(host, bytes, i, word);
    if i == 0 {
      assert filled[2..] == bytes[2..];
    } else {
      assert filled[2..] == WithField(host, bytes[2..], i - 2, word);
      SumWithField(host, bytes[2..], i - 2, word);
    }
  }

  function WithField(host: Host, bytes: seq<byte>, i: nat, word: nat): seq<byte>
    requires i + 1 < |bytes| && word < 65536
  {
    bytes[i := Wire(host, word)[0]][i + 1 := Wire(host, word)[1]]
  }

  // Once the checksum is in its field, checking gives 0.
  lemma CheckingAgainGivesZero(host: Host, bytes: seq<byte>, i: nat)
    requires i % 2 == 0 && i + 1 < |bytes| && bytes[i] == bytes[i + 1] == 0
    ensures Rfc1071(host, WithField(host, bytes, i, Rfc1071(host, bytes))) == 0
  {
    hide Sum, SumAround, WithField;
    var c := Rfc1071(host, bytes);
    SumsAgree(host, bytes);
    SumWithField(host, bytes, i, c);
    SumsAgree(host, WithField(host, bytes, i, c));
    var k := NormDiffers(Sum(host, bytes));
    NormIs(Sum(host, bytes) + c, 0xFFFF, k);
  }

  // -------------------------------------------------------------- byte independence

  lemma {:induction false} SwappedSums(bytes: seq<byte>) returns (k: int)
    ensures 256 * Sum(LittleEndian, bytes) == Sum(BigEndian, bytes) + 0xFFFF * k
    ensures Sum(LittleEndian, bytes) == 0 <==> Sum(BigEndian, bytes) == 0
  {
    k := 0;
    if |bytes| == 1 {
    } else if |bytes| > 1 {
      k := SwappedSums(bytes[2..]);
      k := k + bytes[1] as int;
    }
  }

  // A host of either byte order leaves the same two bytes on the wire.
  lemma ByteOrderDoesNotMatter(bytes: seq<byte>)
    ensures Wire(LittleEndian, Rfc1071(LittleEndian, bytes)) == Wire(BigEndian, Rfc1071(BigEndian, bytes))
  {
    hide Sum, SumAround;
    SumsAgree(LittleEndian, bytes);
    SumsAgree(BigEndian, bytes);
    var k := SwappedSums(bytes);
    SwappedNorms(Sum(LittleEndian, bytes), Sum(BigEndian, bytes), k);
  }

  function Swapped(n: nat): nat {
    256 * (n % 256) + n / 256
  }

  lemma SwapMultiplies(n: nat)
    requires n <= 0xFFFF
    ensures 256 * n == Swapped(n) + 0xFFFF * (n / 256)
    ensures Swapped(n) <= 0xFFFF && (Swapped(n) == 0 <==> n == 0)
  {}

  lemma WireOfSwapped(n: nat)
    requires n <= 0xFFFF && Swapped(n) <= 0xFFFF
    ensures Wire(LittleEndian, Complement(n)) == Wire(BigEndian, Complement(Swapped(n)))
  {
    var low, high := n % 256, n / 256;
    TwoBytes(Complement(n), 255 - low, 255 - high);
    TwoBytes(Complement(Swapped(n)), 255 - high, 255 - low);
  }

  lemma TwoBytes(word: nat, low: nat, high: nat)
    requires word == low + 256 * high && low < 256 && high < 256
    ensures word % 256 == low && word / 256 == high
  {}

  lemma SwappedNorms(little: nat, big: nat, k: int)
    requires 256 * little == big + 0xFFFF * k && (little == 0 <==> big == 0)
    ensures Wire(LittleEndian, Complement(Norm(little))) == Wire(BigEndian, Complement(Norm(big)))
  {
    hide Norm, Swapped, Wire;
    var j := NormDiffers(little);
    var n := Norm(little);
    SwapMultiplies(n);
    WireOfSwapped(n);
    if little > 0 {
      NormIs(big, Swapped(n), 256 * j + n / 256 - k);
    } else {
      NormOfZero();
    }
  }

  lemma NormOfZero()
    ensures Norm(0) == 0
    ensures Swapped(0) == 0
  {}
}
