// Base 32 as util/Base32.h writes it: the digits, lowest first, of the number whose
// bytes, lowest first, are given.  A word whose low bits are in use and another shifted
// above them are joined by addition here.

module Base32 {
  import opened Bytes
  import opened Arithmetic
  import LE = LittleEndian

  const BAD_INPUT: int := -1
  const TOO_BIG: int := -2

  // ------------------------------------------------------------------- characters

  // kChars: the digits and the letters without a, e, i and o.
  function CharOf(digit: nat): byte
    requires digit < 32
  {
    (if digit < 10 then 48 + digit
     else if digit < 13 then 98 + (digit - 10)
     else if digit < 16 then 102 + (digit - 13)
     else if digit < 21 then 106 + (digit - 16)
     else 112 + (digit - 21)) as byte
  }

  function ToLower(c: byte): byte {
    if 65 <= c <= 90 then c + 32 else c
  }

  // numForAscii; 99 for what is not a digit.
  function NumForAscii(c: byte): nat {
    var l := ToLower(c);
    if 48 <= l <= 57 then (l - 48) as nat
    else if 98 <= l <= 100 then (l - 98) as nat + 10
    else if 102 <= l <= 104 then (l - 102) as nat + 13
    else if 106 <= l <= 110 then (l - 106) as nat + 16
    else if 112 <= l <= 122 then (l - 112) as nat + 21
    else 99
  }

  const ALPHABET := "0123456789bcdfghjklmnpqrstuvwxyz"

  lemma CharsOfAlphabet(digit: nat)
    requires digit < 32
    ensures CharOf(digit) as char == ALPHABET[digit]
  {}

  // Capital letters count as small ones, and nothing else is taken for another character.
  lemma CapitalsAreSmall(c: byte)
    ensures ToLower(c) as int ==
      if 'A' <= c as char <= 'Z' then c as int + ('a' as int - 'A' as int) else c as int
    ensures NumForAscii(c) == NumForAscii(ToLower(c))
  {}

  lemma CharIsDigit(digit: nat)
    requires digit < 32
    ensures NumForAscii(CharOf(digit)) == digit
  {}

  lemma DigitIsChar(c: byte)
    requires NumForAscii(c) < 32
    ensures CharOf(NumForAscii(c)) == ToLower(c)
  {}

  type Digit = d: nat | d < 32

  function Chars(digits: seq<Digit>): (s: seq<byte>)
    ensures |s| == |digits|
    ensures forall i | 0 <= i < |digits| :: s[i] == CharOf(digits[i])
  {
    seq(|digits|, i requires 0 <= i < |digits| => CharOf(digits[i]))
  }

  predicate IsBase32(s: seq<byte>) {
    forall i | 0 <= i < |s| :: NumForAscii(s[i]) < 32
  }

  function Nums(s: seq<byte>): (digits: seq<Digit>)
    requires IsBase32(s)
    ensures |digits| == |s|
    ensures forall i | 0 <= i < |s| :: digits[i] == NumForAscii(s[i])
  {
    seq(|s|, i requires 0 <= i < |s| => NumForAscii(s[i]))
  }

  // ---------------------------------------------------------------------- digits

  function Digits(n: nat, count: nat): (digits: seq<Digit>)
    ensures |digits| == count
  {
    if count == 0 then [] else [n % 32] + Digits(n / 32, count - 1)
  }

  function Value(digits: seq<Digit>): nat {
    if digits == [] then 0 else digits[0] + 32 * Value(digits[1..])
  }

  // What is left of a number when its lowest digits, or bytes, are taken off.
  function AboveDigits(n: nat, count: nat): nat {
    if count == 0 then n else AboveDigits(n / 32, count - 1)
  }

  function AboveBytes(n: nat, count: nat): nat {
    if count == 0 then n else AboveBytes(n / 256, count - 1)
  }

  lemma {:induction false} NextAbove(n: nat, count: nat)
    ensures AboveDigits(n, count + 1) == AboveDigits(n, count) / 32
    ensures AboveBytes(n, count + 1) == AboveBytes(n, count) / 256
  {
    if count > 0 {
      NextAbove(n / 32, count - 1);
      NextAbove(n / 256, count - 1);
    }
  }

  lemma {:induction false} NextDigit(n: nat, count: nat)
    ensures Digits(n, count + 1) == Digits(n, count) + [AboveDigits(n, count) % 32]
  {
    if count > 0 {
      NextDigit(n / 32, count - 1);
    }
  }

  lemma {:induction false} NextByte(n: nat, count: nat)
    ensures LE.Encode(n, count + 1) == LE.Encode(n, count) + [(AboveBytes(n, count) % 256) as byte]
  {
    if count > 0 {
      NextByte(n / 256, count - 1);
    }
  }

  lemma {:induction false} NothingAbove(n: nat, count: nat)
    ensures AboveBytes(n, count) == 0 <==> n < LE.Limit(count)
  {
    hide LE.Limit;
    LE.LimitGrows(if count == 0 then 0 else count - 1);
    if count > 0 {
      NothingAbove(n / 256, count - 1);
    }
  }

  lemma {:induction false} DigitsOfValue(digits: seq<Digit>)
    ensures Digits(Value(digits), |digits|) == digits
  {
    if digits != [] {
      DigitsOfValue(digits[1..]);
      assert Value(digits) / 32 == Value(digits[1..]) && Value(digits) % 32 == digits[0];
    }
  }

  lemma {:induction false} ValueOfDigits(n: nat, count: nat)
    requires AboveDigits(n, count) == 0
    ensures Value(Digits(n, count)) == n
  {
    if count > 0 {
      ValueOfDigits(n / 32, count - 1);
      assert Digits(n, count)[1..] == Digits(n / 32, count - 1);
    }
  }

  // --------------------------------------------------- the codes as pure functions

  // So many digits hold so many bytes.
  function DigitsFor(bytes: nat): nat {
    (8 * bytes + 4) / 5
  }

  function Encoded(bytes: seq<byte>): seq<byte> {
    Chars(Digits(LE.Decode(bytes), DigitsFor(|bytes|)))
  }

  // What is accepted: digits throughout, less than a digit's worth of bits left over,
  // and none of those set.
  predicate IsAccepted(s: seq<byte>) {
    && IsBase32(s)
    && 5 * |s| % 8 < 5
    && Value(Nums(s)) < LE.Limit(5 * |s| / 8)
  }

  function Decoded(s: seq<byte>): seq<byte>
    requires IsBase32(s)
  {
    LE.Encode(Value(Nums(s)), 5 * |s| / 8)
  }

  // Taking the lowest group of bits off a buffer with more above it.
  lemma TakeGroup(buffer: nat, bits: nat, group: nat, above: nat)
    requires bits >= group
    ensures (buffer + Pow2(bits) * above) % Pow2(group) == buffer % Pow2(group)
    ensures (buffer + Pow2(bits) * above) / Pow2(group) == buffer / Pow2(group) + Pow2(bits - group) * above
  {
    Pow2Adds(group, bits - group);
    var p, z := Pow2(group), Pow2(bits - group) * above;
    assert Pow2(bits) * above == p * z;
    DivModOfSum(buffer, p, z);
  }

  // buffer | (x << bits), for a buffer of so many bits.
  function Join(buffer: nat, bits: nat, x: nat): nat {
    MulMono(Pow2(bits), 0, x);
    buffer + Pow2(bits) * x
  }

  // Putting a group of bits above a buffer.
  lemma PutGroup(buffer: nat, bits: nat, x: nat, group: nat, above: nat)
    ensures buffer + Pow2(bits) * (x + Pow2(group) * above) == (buffer + Pow2(bits) * x) + Pow2(bits + group) * above
  {
    Pow2Adds(bits, group);
  }

  lemma GroupFits(buffer: nat, bits: nat, x: nat, group: nat)
    requires buffer < Pow2(bits) && x < Pow2(group)
    ensures buffer + Pow2(bits) * x < Pow2(bits + group)
  {
    Pow2Adds(bits, group);
    MulMono(Pow2(bits), x + 1, Pow2(group));
  }

  // -------------------------------------------------------------------- encoding

  // One digit taken off the buffer is the next digit of the number.
  lemma EmitDigit(n: nat, k: nat, work: nat, bits: nat, above: nat)
    requires AboveDigits(n, k) == work + Pow2(bits) * above && work < Pow2(bits)
    requires bits >= 5 || above == 0
    ensures Chars(Digits(n, k + 1)) == Chars(Digits(n, k)) + [CharOf(work % 32)]
    ensures bits >= 5 ==> AboveDigits(n, k + 1) == work / 32 + Pow2(bits - 5) * above && work / 32 < Pow2(bits - 5)
  {
    NextDigit(n, k);
    NextAbove(n, k);
    Pow2Values();
    if bits >= 5 {
      TakeGroup(work, bits, 5, above);
      Pow2Adds(5, bits - 5);
    }
  }

  lemma NothingYet(n: nat)
    ensures AboveDigits(n, 0) == AboveBytes(n, 0) == n
    ensures Chars(Digits(n, 0)) == [] && LE.Encode(n, 0) == [] && Pow2(0) == 1
  {}

  lemma LoadByte(input: seq<byte>, i: nat, work: nat, bits: nat)
    requires i < |input| && work < Pow2(bits)
    ensures var more := Join(work, bits, input[i] as nat);
            && work + Pow2(bits) * LE.Decode(input[i..]) == more + Pow2(bits + 8) * LE.Decode(input[i + 1..])
            && more < Pow2(bits + 8)
  {
    Pow2Values();
    assert input[i..][1..] == input[i + 1..];
    PutGroup(work, bits, input[i] as nat, 8, LE.Decode(input[i + 1..]));
    GroupFits(work, bits, input[i] as nat, 8);
  }

  // What encoding has done so far: the digits written, and in the buffer and the bytes
  // to come the rest of the number.
  ghost predicate IsEncoding(n: nat, written: seq<byte>, work: nat, bits: nat, above: nat) {
    && written == Chars(Digits(n, |written|))
    && work < Pow2(bits)
    && AboveDigits(n, |written|) == work + Pow2(bits) * above
  }

  lemma EmitKeeps(n: nat, written: seq<byte>, work: nat, bits: nat, above: nat)
    requires IsEncoding(n, written, work, bits, above) && (bits >= 5 || above == 0)
    ensures written + [CharOf(work % 32)] == Chars(Digits(n, |written| + 1))
    ensures bits >= 5 ==> IsEncoding(n, written + [CharOf(work % 32)], work / 32, bits - 5, above)
  {
    hide Chars, Digits, CharOf, Pow2;
    EmitDigit(n, |written|, work, bits, above);
  }

  // The inner loop: write digits while there are enough bits for one.
  method EmitWhole(output: array<byte>, start: nat, work0: nat, bits0: nat, ghost n: nat, ghost above: nat)
    returns (full: bool, outIndex: nat, work: nat, bits: nat)
    requires start <= output.Length && IsEncoding(n, output[..start], work0, bits0, above)
    modifies output
    ensures start <= outIndex <= output.Length && bits + 5 * outIndex == bits0 + 5 * start
    ensures full ==> outIndex == output.Length && bits >= 5
    ensures !full ==> bits < 5 && IsEncoding(n, output[..outIndex], work, bits, above)
    ensures !full ==> forall i | outIndex <= i < output.Length :: output[i] == old(output[i])
  {
    hide IsEncoding, CharOf;
    full, outIndex, work, bits := false, start, work0, bits0;
    while bits >= 5
      invariant start <= outIndex <= output.Length && bits + 5 * outIndex == bits0 + 5 * start
      invariant IsEncoding(n, output[..outIndex], work, bits, above)
      invariant forall i | outIndex <= i < output.Length :: output[i] == old(output[i])
    {
      if outIndex >= output.Length {
        full := true;
        return;
      }
      EmitKeeps(n, output[..outIndex], work, bits, above);
      ghost var written := output[..outIndex] + [CharOf(work % 32)];
      output[outIndex] := CharOf(work % 32);
      outIndex := outIndex + 1;
      assert output[..outIndex] == written;
      bits := bits - 5;
      work := work / 32;
    }
  }

  // Encoding fails exactly when the digits do not fit.
  method Encode(output: array<byte>, input: seq<byte>) returns (r: int)
    modifies output
    ensures r == if output.Length < |Encoded(input)| then TOO_BIG else |Encoded(input)|
    ensures r >= 0 ==>
      && output[..r] == Encoded(input)
      && (r < output.Length ==> output[r] == 0)
      && forall i | r < i < output.Length :: output[i] == old(output[i])
  {
    hide IsEncoding, Chars, Digits, CharOf, Join, Pow2, LE.Decode, LE.Limit;
    ghost var n := LE.Decode(input);
    var outIndex: nat, inIndex: nat, work: nat, bits: nat := 0, 0, 0, 0;
    StartEncoding(input);
    assert output[..0] == [];
    while inIndex < |input|
      invariant inIndex <= |input| && outIndex <= output.Length
      invariant bits + 5 * outIndex == 8 * inIndex && bits < 5
      invariant IsEncoding(n, output[..outIndex], work, bits, LE.Decode(input[inIndex..]))
      invariant forall i | outIndex <= i < output.Length :: output[i] == old(output[i])
    {
      LoadKeeps(n, output[..outIndex], work, bits, input, inIndex);
      var full;
      full, outIndex, work, bits := EmitWhole(output, outIndex, Join(work, bits, input[inIndex] as nat), bits + 8,
        n, LE.Decode(input[inIndex + 1..]));
      if full {
        return TOO_BIG;
      }
      inIndex := inIndex + 1;
    }
    assert input[inIndex..] == [];
    r := EmitRest(output, outIndex, work, bits, n);
  }

  // What follows the loop: the last digit, if bits are left, and a terminator, if there
  // is room for it.
  method EmitRest(output: array<byte>, start: nat, work: nat, bits: nat, ghost n: nat) returns (r: int)
    requires start <= output.Length && bits < 5 && IsEncoding(n, output[..start], work, bits, LE.Decode([]))
    modifies output
    ensures var count := if bits == 0 then start else start + 1;
            && r == (if output.Length < count then TOO_BIG else count)
            && (r >= 0 ==>
                 && output[..count] == Chars(Digits(n, count))
                 && (count < output.Length ==> output[count] == 0)
                 && forall i | count < i < output.Length :: output[i] == old(output[i]))
  {
    hide IsEncoding, Chars, Digits, CharOf;
    FinishEncoding(n, output[..start], work, bits);
    var outIndex := start;
    if bits != 0 {
      if outIndex >= output.Length {
        return TOO_BIG;
      }
      ghost var written := output[..outIndex] + [CharOf(work % 32)];
      output[outIndex] := CharOf(work % 32);
      outIndex := outIndex + 1;
      assert output[..outIndex] == written;
    }
    ghost var encoded := output[..outIndex];
    if outIndex < output.Length {
      output[outIndex] := 0;
    }
    assert output[..outIndex] == encoded;
    r := outIndex;
  }

  lemma StartEncoding(input: seq<byte>)
    ensures IsEncoding(LE.Decode(input), [], 0, 0, LE.Decode(input[0..]))
  {
    assert input[0..] == input;
    NothingYet(LE.Decode(input));
  }

  lemma LoadKeeps(n: nat, written: seq<byte>, work: nat, bits: nat, input: seq<byte>, i: nat)
    requires i < |input| && IsEncoding(n, written, work, bits, LE.Decode(input[i..]))
    ensures IsEncoding(n, written, Join(work, bits, input[i] as nat), bits + 8, LE.Decode(input[i + 1..]))
  {
    hide Chars, Digits, Pow2, Join;
    LoadByte(input, i, work, bits);
  }

  // Fewer bits than a digit are left: they are the highest digit.
  lemma FinishEncoding(n: nat, written: seq<byte>, work: nat, bits: nat)
    requires bits < 5 && IsEncoding(n, written, work, bits, LE.Decode([]))
    ensures written == Chars(Digits(n, |written|))
    ensures written + [CharOf(work % 32)] == Chars(Digits(n, |written| + 1))
  {
    EmitKeeps(n, written, work, bits, 0);
  }

  // -------------------------------------------------------------------- decoding

  lemma {:induction false} ValueOfMore(digits: seq<Digit>, d: Digit)
    ensures Value(digits + [d]) == Value(digits) + Pow2(5 * |digits|) * d
  {
    if digits == [] {
      assert digits + [d] == [d];
    } else {
      assert (digits + [d])[1..] == digits[1..] + [d];
      ValueOfMore(digits[1..], d);
      Pow2Adds(5, 5 * |digits[1..]|);
      Pow2Values();
      assert Pow2(5 * |digits|) * d == 32 * (Pow2(5 * |digits[1..]|) * d);
    }
  }

  // A digit far up changes neither the bytes below it nor, but for its own place,
  // what is above them.
  lemma {:induction false} AddHigh(n: nat, bits: nat, d: nat, k: nat)
    requires 8 * k <= bits
    ensures LE.Encode(Join(n, bits, d), k) == LE.Encode(n, k)
    ensures AboveBytes(Join(n, bits, d), k) == Join(AboveBytes(n, k), bits - 8 * k, d)
  {
    if k > 0 {
      Pow2Values();
      TakeGroup(n, bits, 8, d);
      AddHigh(n / 256, bits - 8, d, k - 1);
    }
  }

  // What decoding has done so far, for the characters that were read.
  ghost predicate IsDecoding(read: seq<byte>, written: seq<byte>, nextByte: nat, bits: nat) {
    && IsBase32(read)
    && bits + 8 * |written| == 5 * |read|
    && written == LE.Encode(Value(Nums(read)), |written|)
    && nextByte == AboveBytes(Value(Nums(read)), |written|)
    && nextByte < Pow2(bits)
  }

  lemma StartDecoding()
    ensures IsDecoding([], [], 0, 0)
  {
    NothingYet(0);
  }

  lemma LoadDigit(read: seq<byte>, written: seq<byte>, nextByte: nat, bits: nat, c: byte)
    requires IsDecoding(read, written, nextByte, bits) && NumForAscii(c) < 32
    ensures IsDecoding(read + [c], written, Join(nextByte, bits, NumForAscii(c)), bits + 5)
  {
    hide Pow2, AboveBytes, NumForAscii;
    var d: Digit := NumForAscii(c);
    assert Nums(read + [c]) == Nums(read) + [d];
    ValueOfMore(Nums(read), d);
    assert Value(Nums(read + [c])) == Join(Value(Nums(read)), 5 * |read|, d);
    AddHigh(Value(Nums(read)), 5 * |read|, d, |written|);
    Pow2Values();
    GroupFits(nextByte, bits, d, 5);
  }

  lemma StoreByte(read: seq<byte>, written: seq<byte>, nextByte: nat, bits: nat)
    requires IsDecoding(read, written, nextByte, bits) && bits >= 8
    ensures IsDecoding(read, written + [(nextByte % 256) as byte], nextByte / 256, bits - 8)
  {
    hide Pow2, AboveBytes, IsBase32, Value;
    var n := Value(Nums(read));
    NextByte(n, |written|);
    NextAbove(n, |written|);
    Pow2Values();
    TakeGroup(nextByte, bits, 8, 0);
    Pow2Adds(8, bits - 8);
  }

  // At the end: accepted if the bits that are left are fewer than a digit and clear.
  lemma FinishDecoding(input: seq<byte>, written: seq<byte>, nextByte: nat, bits: nat)
    requires IsDecoding(input, written, nextByte, bits) && bits < 8
    ensures IsAccepted(input) <==> bits < 5 && nextByte == 0
    ensures written == Decoded(input)
  {
    hide Pow2, AboveBytes, IsBase32, Value;
    NothingAbove(Value(Nums(input)), |written|);
  }

  // The output is too small for what the valid characters so far amount to.
  predicate Overflows(input: seq<byte>, length: nat) {
    var cut := DigitsFor(length + 1);
    |input| >= cut && IsBase32(input[..cut])
  }

  // For what is accepted that is when the bytes it stands for do not fit.
  lemma OverflowMeans(input: seq<byte>, length: nat)
    requires IsAccepted(input)
    ensures Overflows(input, length) <==> length < |Decoded(input)|
  {
    hide NumForAscii;
  }

  // Decoding succeeds exactly for what is accepted and fits.
  method Decode(output: array<byte>, input: seq<byte>) returns (r: int)
    modifies output
    ensures r == TOO_BIG <==> Overflows(input, output.Length)
    ensures r >= 0 <==> !Overflows(input, output.Length) && IsAccepted(input)
    ensures r >= 0 ==>
      && IsAccepted(input) && r == |Decoded(input)| <= output.Length && output[..r] == Decoded(input)
      && output[r..] == old(output[r..])
    ensures r == TOO_BIG || r == BAD_INPUT || r >= 0
  {
    hide IsDecoding, NumForAscii, Join, Decoded;
    var outIndex: nat, inputIndex: nat, nextByte: nat, bits: nat := 0, 0, 0, 0;
    StartDecoding();
    assert output[..0] == input[..0] == [];
    while inputIndex < |input|
      invariant inputIndex <= |input| && outIndex <= output.Length && bits < 8
      invariant bits + 8 * outIndex == 5 * inputIndex
      invariant IsBase32(input[..inputIndex])
      invariant IsDecoding(input[..inputIndex], output[..outIndex], nextByte, bits)
      invariant output[outIndex..] == old(output[outIndex..])
    {
      var b := NumForAscii(input[inputIndex]);
      if b > 31 {
        BadCharacter(input, inputIndex, output.Length);
        return BAD_INPUT;
      }
      LoadDigit(input[..inputIndex], output[..outIndex], nextByte, bits, input[inputIndex]);
      assert input[..inputIndex] + [input[inputIndex]] == input[..inputIndex + 1];
      nextByte := Join(nextByte, bits, b);
      bits := bits + 5;
      inputIndex := inputIndex + 1;
      if bits >= 8 {
        if outIndex >= output.Length {
          assert inputIndex == DigitsFor(output.Length + 1);
          return TOO_BIG;
        }
        StoreByte(input[..inputIndex], output[..outIndex], nextByte, bits);
        ghost var written := output[..outIndex] + [(nextByte % 256) as byte];
        output[outIndex] := (nextByte % 256) as byte;
        outIndex := outIndex + 1;
        assert output[..outIndex] == written;
        bits := bits - 8;
        nextByte := nextByte / 256;
      }
    }
    assert input[..inputIndex] == input;
    FinishDecoding(input, output[..outIndex], nextByte, bits);
    if bits >= 5 || nextByte != 0 {
      return BAD_INPUT;
    }
    r := outIndex;
  }

  lemma BadCharacter(input: seq<byte>, i: nat, length: nat)
    requires i < |input| && NumForAscii(input[i]) > 31 && i < DigitsFor(length + 1)
    ensures !IsAccepted(input) && !Overflows(input, length)
  {
    if |input| >= DigitsFor(length + 1) {
      assert input[..DigitsFor(length + 1)][i] == input[i];
    }
  }

  // -------------------------------------------------------- the codes are inverse

  lemma {:induction false} NoDigitsAbove(n: nat, count: nat)
    requires n < Pow2(5 * count)
    ensures AboveDigits(n, count) == 0
  {
    if count > 0 {
      Pow2Adds(5, 5 * (count - 1));
      Pow2Values();
      NoDigitsAbove(n / 32, count - 1);
    }
  }

  lemma Pow2Rises(a: nat, b: nat)
    requires a <= b
    ensures Pow2(a) <= Pow2(b)
  {
    Pow2Adds(a, b - a);
    MulMono(Pow2(a), 1, Pow2(b - a));
  }

  lemma CharsAreDigits(digits: seq<Digit>)
    ensures IsBase32(Chars(digits)) && Nums(Chars(digits)) == digits
  {
    hide CharOf, NumForAscii;
    forall i | 0 <= i < |digits|
      ensures NumForAscii(Chars(digits)[i]) == digits[i]
    {
      CharIsDigit(digits[i]);
    }
  }

  lemma LengthsMatch(bytes: nat)
    ensures 8 * bytes <= 5 * DigitsFor(bytes) && 5 * DigitsFor(bytes) % 8 < 5 && 5 * DigitsFor(bytes) / 8 == bytes
  {}

  // Whatever is encoded is accepted and decodes to itself ...
  lemma DecodeAfterEncode(bytes: seq<byte>)
    ensures IsAccepted(Encoded(bytes)) && Decoded(Encoded(bytes)) == bytes
  {
    hide CharOf, NumForAscii, Pow2, Chars, IsBase32, Digits, Value, DigitsFor, LE.Decode, LE.Encode, LE.Limit;
    var n, count := LE.Decode(bytes), DigitsFor(|bytes|);
    LengthsMatch(|bytes|);
    CharsAreDigits(Digits(n, count));
    LE.LimitIs(|bytes|);
    Pow2Rises(8 * |bytes|, 5 * count);
    NoDigitsAbove(n, count);
    ValueOfDigits(n, count);
    LE.EncodeAfterDecode(bytes);
  }

  function Lower(s: seq<byte>): (l: seq<byte>)
    ensures |l| == |s|
    ensures forall i | 0 <= i < |s| :: l[i] == ToLower(s[i])
  {
    seq(|s|, i requires 0 <= i < |s| => ToLower(s[i]))
  }

  lemma DigitsAreChars(s: seq<byte>)
    requires IsBase32(s)
    ensures Chars(Nums(s)) == Lower(s)
  {
    hide CharOf, NumForAscii, ToLower;
    forall i | 0 <= i < |s|
      ensures Chars(Nums(s))[i] == Lower(s)[i]
    {
      DigitIsChar(s[i]);
    }
  }

  // ... and whatever is accepted encodes to itself, in small letters.
  lemma EncodeAfterDecode(s: seq<byte>)
    requires IsAccepted(s)
    ensures Encoded(Decoded(s)) == Lower(s)
  {
    hide CharOf, NumForAscii, ToLower, Pow2, Chars, IsBase32;
    LE.DecodeAfterEncode(Value(Nums(s)), 5 * |s| / 8);
    DigitsOfValue(Nums(s));
    DigitsAreChars(s);
  }

  // ----------------------------------------------------------------- public keys

  const KEY_SIZE: nat := 32
  const KEY_CHARS: nat := 52

  datatype KeyResult = TooShort | Malformed | DecodeFailed | Key(bytes: seq<byte>)

  // The 52 characters of a key and ".k".
  function Stringify(key: seq<byte>): seq<byte> {
    Encoded(key) + [46, 107]
  }

  function ParseKey(s: seq<byte>): KeyResult {
    if |s| < KEY_CHARS then TooShort
    else if |s| < KEY_CHARS + 2 || s[52] != 46 || s[53] != 107 then Malformed
    else if !IsAccepted(s[..KEY_CHARS]) then DecodeFailed
    else Key(Decoded(s[..KEY_CHARS]))
  }

  lemma ParseAfterStringify(key: seq<byte>)
    requires |key| == KEY_SIZE
    ensures |Stringify(key)| == KEY_CHARS + 2 && ParseKey(Stringify(key)) == Key(key)
    ensures Stringify(key)[52] as char == '.' && Stringify(key)[53] as char == 'k'
  {
    hide Encoded, IsAccepted, Decoded;
    DecodeAfterEncode(key);
    KeyLength(key);
    assert Stringify(key)[..KEY_CHARS] == Encoded(key);
  }

  lemma KeyLength(key: seq<byte>)
    requires |key| == KEY_SIZE
    ensures |Encoded(key)| == KEY_CHARS
  {}

  // What is read as a key, of 32 bytes, is what is written for it, in small letters, and
  // whatever follows.
  lemma StringifyAfterParse(s: seq<byte>)
    ensures ParseKey(s).Key? <==>
      |s| >= KEY_CHARS + 2 && IsAccepted(s[..KEY_CHARS]) && s[52] as char == '.' && s[53] as char == 'k'
    ensures ParseKey(s).Key? ==>
      |ParseKey(s).bytes| == KEY_SIZE && Stringify(ParseKey(s).bytes) == Lower(s[..KEY_CHARS + 2])
  {
    hide Encoded, IsAccepted, Lower, ToLower;
    if ParseKey(s).Key? {
      IsAcceptedMeans(s[..KEY_CHARS]);
      EncodeAfterDecode(s[..KEY_CHARS]);
      LowerOfBoth(s[..KEY_CHARS + 2]);
    }
  }

  lemma IsAcceptedMeans(s: seq<byte>)
    requires |s| == KEY_CHARS && IsAccepted(s)
    ensures IsBase32(s) && |Decoded(s)| == KEY_SIZE
  {}

  lemma LowerOfBoth(s: seq<byte>)
    requires |s| == KEY_CHARS + 2 && s[52] == 46 && s[53] == 107
    ensures Lower(s) == Lower(s[..KEY_CHARS]) + [46, 107]
  {}
}
