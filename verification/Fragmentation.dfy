// Cutting up IPv6 packets that already carry a fragment header, in place:
// sendFragmented of interface/ICMP6Generator.c against section 4.5 of RFC 2460.

module Fragmentation {
  import opened Arithmetic
  import opened Bytes

  const IP6_SIZE: nat := 40
  const HEADERS_SIZE: nat := 48  // the IPv6 header and the fragment header
  const FRAGMENT_TYPE: byte := 44

  // ------------------------------------------------------------------ header fields

  function Read16(s: seq<byte>, at: nat): nat
    requires at + 1 < |s|
  {
    256 * s[at] as nat + s[at + 1] as nat
  }

  function Write16(s: seq<byte>, at: nat, n: nat): (t: seq<byte>)
    requires at + 1 < |s| && n < 65536
    ensures |t| == |s| && Read16(t, at) == n
    ensures forall i | 0 <= i < |s| && i != at && i != at + 1 :: t[i] == s[i]
  {
    s[at := (n / 256) as byte][at + 1 := (n % 256) as byte]
  }

  // The payload length is at 4; the offset, in units of 8 bytes, and below it the flags at 42.
  function PayloadLength(p: seq<byte>): nat
    requires |p| >= HEADERS_SIZE
  {
    Read16(p, 4)
  }

  function Offset(p: seq<byte>): nat
    requires |p| >= HEADERS_SIZE
  {
    Read16(p, 42) / 8
  }

  predicate HasMore(p: seq<byte>)
    requires |p| >= HEADERS_SIZE
  {
    Read16(p, 42) % 2 == 1
  }

  // The two bits between the offset and the flag that more follows.
  function Reserved(p: seq<byte>): nat
    requires |p| >= HEADERS_SIZE
  {
    Read16(p, 42) / 2 % 4
  }

  // Headers as they were, but for the payload length, the offset and that flag.
  predicate HasHeaders(p: seq<byte>, headers: seq<byte>) {
    && |headers| == HEADERS_SIZE <= |p| && Reserved(p) == Reserved(headers)
    && (forall i | 0 <= i < HEADERS_SIZE && i != 4 && i != 5 && i != 42 && i != 43 :: p[i] == headers[i])
  }

  // The fields that tell which packet a fragment is part of: source and destination
  // address and the identification.
  predicate AreOfOnePacket(p: seq<byte>, q: seq<byte>)
    requires |p| >= HEADERS_SIZE && |q| >= HEADERS_SIZE
  {
    p[8..24] == q[8..24] && p[24..40] == q[24..40] && p[44..48] == q[44..48]
  }

  lemma SameHeadersSamePacket(p: seq<byte>, q: seq<byte>, headers: seq<byte>)
    requires HasHeaders(p, headers) && HasHeaders(q, headers)
    ensures AreOfOnePacket(p, q) && AreOfOnePacket(p, headers)
  {}

  function SetPayloadLength(p: seq<byte>, n: nat): (t: seq<byte>)
    requires |p| >= HEADERS_SIZE && n < 65536
    ensures |t| == |p|
  {
    Write16(p, 4, n)
  }

  function SetOffset(p: seq<byte>, offset: nat): (t: seq<byte>)
    requires |p| >= HEADERS_SIZE && offset < 8192
    ensures |t| == |p|
  {
    Write16(p, 42, Read16(p, 42) % 8 + 8 * offset)
  }

  function SetMore(p: seq<byte>): (t: seq<byte>)
    requires |p| >= HEADERS_SIZE
    ensures |t| == |p|
  {
    Write16(p, 42, Read16(p, 42) / 2 * 2 + 1)
  }

  function Payload(p: seq<byte>): seq<byte>
    requires |p| >= HEADERS_SIZE
  {
    p[HEADERS_SIZE..]
  }

  // ------------------------------------------------------------------ the fragments

  // As much as fits the mtu, in units of 8 bytes.
  function Chunk(mtu: nat): (n: nat)
    requires mtu >= HEADERS_SIZE
    ensures n % 8 == 0 && n + HEADERS_SIZE <= mtu < n + HEADERS_SIZE + 8
    ensures n == 0 <==> mtu < HEADERS_SIZE + 8
  {
    (mtu - HEADERS_SIZE) / 8 * 8
  }

  function Part(headers: seq<byte>, piece: seq<byte>, offset: nat): (p: seq<byte>)
    requires |headers| == HEADERS_SIZE && offset / 8 < 8192 && |piece| + 8 < 65536
    ensures |p| == HEADERS_SIZE + |piece|
  {
    SetMore(SetOffset(SetPayloadLength(headers + piece, |piece| + 8), offset / 8))
  }

  function LastPart(headers: seq<byte>, piece: seq<byte>, offset: nat): (p: seq<byte>)
    requires |headers| == HEADERS_SIZE && offset / 8 < 8192 && |piece| + 8 < 65536
    ensures |p| == HEADERS_SIZE + |piece|
  {
    SetPayloadLength(SetOffset(headers + piece, offset / 8), |piece| + 8)
  }

  function Fragments(headers: seq<byte>, payload: seq<byte>, mtu: nat, offset: nat): (parts: seq<seq<byte>>)
    requires |headers| == HEADERS_SIZE && mtu >= HEADERS_SIZE + 8
    requires offset + |payload| + 8 < 65536
    ensures parts != [] && forall p <- parts :: |p| >= HEADERS_SIZE
    decreases |payload|
  {
    if HEADERS_SIZE + |payload| > mtu then
      var chunk := Chunk(mtu);
      [Part(headers, payload[..chunk], offset)] + Fragments(headers, payload[chunk..], mtu, offset + chunk)
    else [LastPart(headers, payload, offset)]
  }

  // ------------------------------------------------------------------- reassembling

  datatype Reassembly = Gap | Whole(payload: seq<byte>)

  // Fragments in order are put together if they are of one packet and each begins where
  // the one before ended.
  function Reassemble(parts: seq<seq<byte>>, at: nat): Reassembly
    requires forall p <- parts :: |p| >= HEADERS_SIZE
  {
    if parts == [] then Whole([])
    else if 8 * Offset(parts[0]) != at || (|parts| > 1 && !AreOfOnePacket(parts[0], parts[1])) then Gap
    else
      match Reassemble(parts[1..], at + |Payload(parts[0])|)
      case Gap => Gap
      case Whole(rest) => Whole(Payload(parts[0]) + rest)
  }

  lemma WriteKeeps(s: seq<byte>, at: nat, n: nat)
    requires (at == 4 || at == 42) && |s| >= HEADERS_SIZE && n < 65536
    ensures var t := Write16(s, at, n);
            && Read16(t, 46 - at) == Read16(s, 46 - at) && Read16(t, at) == n
            && Payload(t) == Payload(s)
            && (forall i | 0 <= i < HEADERS_SIZE && i != at && i != at + 1 :: t[i] == s[i])
  {
    var t := Write16(s, at, n);
    assert forall i | HEADERS_SIZE <= i < |s| :: t[i] == s[i];
  }

  // What a fragment says of itself.
  lemma PartMeans(headers: seq<byte>, piece: seq<byte>, offset: nat)
    requires |headers| == HEADERS_SIZE && offset % 8 == 0 && offset / 8 < 8192 && |piece| + 8 < 65536
    ensures var p := Part(headers, piece, offset);
            && |p| == HEADERS_SIZE + |piece|
            && 8 * Offset(p) == offset && HasMore(p) && Payload(p) == piece && PayloadLength(p) == |piece| + 8
            && HasHeaders(p, headers)
  {
    hide Read16, Write16, Payload;
    FieldArithmetic(Read16(headers, 42), offset / 8);
    HeaderFields(headers, piece);
    var p := headers + piece;
    var p1 := SetPayloadLength(p, |piece| + 8);
    var p2 := SetOffset(p1, offset / 8);
    WriteKeeps(p, 4, |piece| + 8);
    WriteKeeps(p1, 42, Read16(p1, 42) % 8 + 8 * (offset / 8));
    WriteKeeps(p2, 42, Read16(p2, 42) / 2 * 2 + 1);
  }

  lemma LastPartMeans(headers: seq<byte>, piece: seq<byte>, offset: nat)
    requires |headers| == HEADERS_SIZE && offset % 8 == 0 && offset / 8 < 8192 && |piece| + 8 < 65536
    ensures var p := LastPart(headers, piece, offset);
            && |p| == HEADERS_SIZE + |piece|
            && 8 * Offset(p) == offset && HasMore(p) == HasMore(headers) && Payload(p) == piece
            && PayloadLength(p) == |piece| + 8
            && HasHeaders(p, headers)
  {
    hide Read16, Write16, Payload;
    FieldArithmetic(Read16(headers, 42), offset / 8);
    HeaderFields(headers, piece);
    var p := headers + piece;
    var p1 := SetOffset(p, offset / 8);
    WriteKeeps(p, 42, Read16(p, 42) % 8 + 8 * (offset / 8));
    WriteKeeps(p1, 4, |piece| + 8);
  }

  lemma FieldArithmetic(field: nat, offset: nat)
    ensures var f := field % 8 + 8 * offset;
            && f / 8 == offset && f % 2 == field % 2 && f / 2 % 4 == field / 2 % 4
            && (f / 2 * 2 + 1) / 8 == offset && (f / 2 * 2 + 1) % 2 == 1 && (f / 2 * 2 + 1) / 2 % 4 == field / 2 % 4
  {
    var flags := field % 8;
    FlagBits(field);
    EightsOf(flags, offset);
    EightsOf(flags / 2 * 2 + 1, offset);
    ReservedBits(field, offset);
  }

  lemma ReservedBits(field: nat, offset: nat)
    ensures var f := field % 8 + 8 * offset; f / 2 % 4 == field / 2 % 4 && (f / 2 * 2 + 1) / 2 == f / 2
  {
    var f := field % 8 + 8 * offset;
    DivModOfSum(field % 8 / 2, 4, offset);
    assert f / 2 == field % 8 / 2 + 4 * offset;
    DivModOfSum(field % 8 / 2, 4, field / 8);
    assert field / 2 == field % 8 / 2 + 4 * (field / 8);
  }

  lemma FlagBits(field: nat)
    ensures var flags := field % 8;
            flags % 2 == field % 2 && flags / 2 * 2 + 1 < 8 && (flags / 2 * 2 + 1) % 2 == 1
  {
    DivModOfSum(field % 8, 2, 4 * (field / 8));
  }

  lemma EightsOf(flags: nat, offset: nat)
    requires flags < 8
    ensures (flags + 8 * offset) / 8 == offset && (flags + 8 * offset) % 2 == flags % 2
    ensures (flags + 8 * offset) / 2 * 2 + 1 == (flags / 2 * 2 + 1) + 8 * offset
  {
    DivModOfSum(flags, 8, offset);
    DivModOfSum(flags, 2, 4 * offset);
  }

  lemma HeaderFields(headers: seq<byte>, piece: seq<byte>)
    requires |headers| == HEADERS_SIZE
    ensures Read16(headers + piece, 42) == Read16(headers, 42)
    ensures Payload(headers + piece) == piece
  {}

  lemma FragmentsUnfold(headers: seq<byte>, payload: seq<byte>, mtu: nat, offset: nat)
    requires |headers| == HEADERS_SIZE && mtu >= HEADERS_SIZE + 8
    requires offset + |payload| + 8 < 65536
    ensures HEADERS_SIZE + |payload| > mtu ==>
      var chunk := Chunk(mtu);
      0 < chunk <= |payload| &&
      Fragments(headers, payload, mtu, offset) ==
        [Part(headers, payload[..chunk], offset)] + Fragments(headers, payload[chunk..], mtu, offset + chunk)
    ensures HEADERS_SIZE + |payload| <= mtu ==>
      Fragments(headers, payload, mtu, offset) == [LastPart(headers, payload, offset)]
  {
    hide Part, LastPart;
  }

  lemma ReassembleFirst(p: seq<byte>, rest: seq<seq<byte>>, at: nat, payload: seq<byte>)
    requires |p| >= HEADERS_SIZE && (forall q <- rest :: |q| >= HEADERS_SIZE) && 8 * Offset(p) == at
    requires rest != [] ==> AreOfOnePacket(p, rest[0])
    requires Reassemble(rest, at + |Payload(p)|) == Whole(payload)
    ensures (forall q <- [p] + rest :: |q| >= HEADERS_SIZE)
    ensures Reassemble([p] + rest, at) == Whole(Payload(p) + payload)
  {
    hide Offset, Payload, AreOfOnePacket;
    assert ([p] + rest)[1..] == rest && ([p] + rest)[0] == p;
  }

  // Every fragment has the headers of the packet, but for what says which part it is.
  lemma {:induction false} FragmentsKeepHeaders(headers: seq<byte>, payload: seq<byte>, mtu: nat, offset: nat)
    requires |headers| == HEADERS_SIZE && mtu >= HEADERS_SIZE + 8
    requires offset % 8 == 0 && offset + |payload| + 8 < 65536
    ensures forall p <- Fragments(headers, payload, mtu, offset) :: HasHeaders(p, headers)
    decreases |payload|
  {
    hide Offset, Payload, Part, LastPart, Chunk, Fragments, HasHeaders;
    FragmentsUnfold(headers, payload, mtu, offset);
    if HEADERS_SIZE + |payload| > mtu {
      var chunk := Chunk(mtu);
      PartMeans(headers, payload[..chunk], offset);
      FragmentsKeepHeaders(headers, payload[chunk..], mtu, offset + chunk);
    } else {
      LastPartMeans(headers, payload, offset);
    }
  }

  // Cutting up a packet with offset 0: put together again, the fragments are the
  // original payload ...
  lemma {:induction false} FragmentsReassemble(headers: seq<byte>, payload: seq<byte>, mtu: nat, offset: nat)
    requires |headers| == HEADERS_SIZE && mtu >= HEADERS_SIZE + 8
    requires offset % 8 == 0 && offset + |payload| + 8 < 65536
    ensures Reassemble(Fragments(headers, payload, mtu, offset), offset) == Whole(payload)
    decreases |payload|
  {
    hide Offset, Payload, Part, LastPart, Chunk, Fragments, Reassemble, HasHeaders, AreOfOnePacket;
    FragmentsUnfold(headers, payload, mtu, offset);
    FragmentsKeepHeaders(headers, payload, mtu, offset);
    if HEADERS_SIZE + |payload| > mtu {
      var chunk := Chunk(mtu);
      var all, rest := Fragments(headers, payload, mtu, offset),
        Fragments(headers, payload[chunk..], mtu, offset + chunk);
      assert rest[0] == all[1] && all[0] in all && all[1] in all;
      SameHeadersSamePacket(all[0], all[1], headers);
      PartMeans(headers, payload[..chunk], offset);
      FragmentsReassemble(headers, payload[chunk..], mtu, offset + chunk);
      ReassembleFirst(Part(headers, payload[..chunk], offset),
        Fragments(headers, payload[chunk..], mtu, offset + chunk), offset, payload[chunk..]);
      assert payload[..chunk] + payload[chunk..] == payload;
    } else {
      LastPartMeans(headers, payload, offset);
      NothingToReassemble(offset + |payload|);
      ReassembleFirst(LastPart(headers, payload, offset), [], offset, []);
      assert [LastPart(headers, payload, offset)] + [] == [LastPart(headers, payload, offset)];
      assert payload + [] == payload;
    }
  }

  // Together they are the packet, and each has its headers.
  predicate AreFragmentsOf(parts: seq<seq<byte>>, offset: nat, headers: seq<byte>, payload: seq<byte>) {
    && (forall p <- parts :: |p| >= HEADERS_SIZE && HasHeaders(p, headers))
    && Reassemble(parts, offset) == Whole(payload)
  }

  lemma FragmentsAreOfIt(headers: seq<byte>, payload: seq<byte>, mtu: nat, offset: nat)
    requires |headers| == HEADERS_SIZE && mtu >= HEADERS_SIZE + 8 && offset + |payload| + 8 < 65536
    ensures offset % 8 == 0 ==> AreFragmentsOf(Fragments(headers, payload, mtu, offset), offset, headers, payload)
  {
    hide Fragments, Reassemble, HasHeaders;
    if offset % 8 == 0 {
      FragmentsKeepHeaders(headers, payload, mtu, offset);
      FragmentsReassemble(headers, payload, mtu, offset);
    }
  }

  lemma NothingToReassemble(at: nat)
    ensures Reassemble([], at) == Whole([])
  {}

  // A fragment that fits the mtu, where 8 more bytes would not, says how long it is,
  // carries a multiple of 8 bytes and is marked as followed by more.
  predicate IsInner(p: seq<byte>, mtu: nat) {
    && HEADERS_SIZE < |p| <= mtu < |p| + 8 && (|p| - HEADERS_SIZE) % 8 == 0
    && PayloadLength(p) == |p| - IP6_SIZE && HasMore(p)
  }

  // The last one, marked as the packet was; its fields give the length of the whole.
  predicate IsFinal(p: seq<byte>, mtu: nat, more: bool, length: nat) {
    && HEADERS_SIZE <= |p| <= mtu
    && PayloadLength(p) == |p| - IP6_SIZE && HasMore(p) == more
    && 8 * Offset(p) + PayloadLength(p) - 8 == length
  }

  // ... and every one of them is sound, and none could have been saved.
  lemma {:induction false} FragmentsAreSound(headers: seq<byte>, payload: seq<byte>, mtu: nat, offset: nat)
    requires |headers| == HEADERS_SIZE && mtu >= HEADERS_SIZE + 8
    requires offset % 8 == 0 && offset + |payload| + 8 < 65536
    ensures var parts := Fragments(headers, payload, mtu, offset);
            && (forall i | 0 <= i < |parts| - 1 :: IsInner(parts[i], mtu))
            && IsFinal(parts[|parts| - 1], mtu, HasMore(headers), offset + |payload|)
            && (|parts| > 1 ==> |parts[|parts| - 2]| + |Payload(parts[|parts| - 1])| > mtu)
            && (|parts| == 1 <==> HEADERS_SIZE + |payload| <= mtu)
    decreases |payload|
  {
    hide IsInner, IsFinal, HasMore, Part, LastPart, Chunk, Fragments;
    FragmentsUnfold(headers, payload, mtu, offset);
    if HEADERS_SIZE + |payload| > mtu {
      var chunk := Chunk(mtu);
      PartIsInner(headers, payload[..chunk], mtu, offset);
      FragmentsUnfold(headers, payload[chunk..], mtu, offset + chunk);
      FragmentsAreSound(headers, payload[chunk..], mtu, offset + chunk);
    } else {
      LastPartIsFinal(headers, payload, mtu, offset);
    }
  }

  lemma PartIsInner(headers: seq<byte>, piece: seq<byte>, mtu: nat, offset: nat)
    requires |headers| == HEADERS_SIZE && offset % 8 == 0 && offset / 8 < 8192 && |piece| + 8 < 65536
    requires piece != [] && |piece| % 8 == 0 && HEADERS_SIZE + |piece| <= mtu < HEADERS_SIZE + |piece| + 8
    ensures IsInner(Part(headers, piece, offset), mtu)
  {
    hide Part;
    PartMeans(headers, piece, offset);
  }

  lemma LastPartIsFinal(headers: seq<byte>, piece: seq<byte>, mtu: nat, offset: nat)
    requires |headers| == HEADERS_SIZE && offset % 8 == 0 && offset / 8 < 8192 && |piece| + 8 < 65536
    requires HEADERS_SIZE + |piece| <= mtu
    ensures IsFinal(LastPart(headers, piece, offset), mtu, HasMore(headers), offset + |piece|)
  {
    hide LastPart;
    LastPartMeans(headers, piece, offset);
  }

  // The offset a packet came with is written over: its fragments are put together at the
  // place the packet had in a larger one exactly when that place was the beginning, that
  // is, when the packet was not a later fragment itself.
  lemma FormerOffsetIsLost(headers: seq<byte>, payload: seq<byte>, mtu: nat)
    requires |headers| == HEADERS_SIZE && mtu >= HEADERS_SIZE + 8 && |payload| + 8 < 65536
    ensures Reassemble(Fragments(headers, payload, mtu, 0), 8 * Offset(headers)) == Whole(payload)
            <==> Offset(headers) == 0
  {
    FragmentsReassemble(headers, payload, mtu, 0);
    hide Part, LastPart, Offset, Payload, Fragments, HasHeaders, AreOfOnePacket;
    FragmentsUnfold(headers, payload, mtu, 0);
    if HEADERS_SIZE + |payload| > mtu {
      PartMeans(headers, payload[..Chunk(mtu)], 0);
    } else {
      LastPartMeans(headers, payload, 0);
    }
  }

  // ---------------------------------------------------------------------- the code

  // The bytes in a stretch of the buffer.
  ghost function Stretch(buffer: array<byte>, from: nat, to: nat): (s: seq<byte>)
    requires from <= to <= buffer.Length
    reads buffer
    ensures |s| == to - from
  {
    buffer[from..to]
  }

  lemma CutAt(buffer: array<byte>, from: nat, at: nat, to: nat)
    requires from <= at <= to <= buffer.Length
    ensures Stretch(buffer, from, to)[..at - from] == Stretch(buffer, from, at)
    ensures Stretch(buffer, from, to)[at - from..] == Stretch(buffer, at, to)
  {}

  lemma HeadersAndRest(s: seq<byte>, start: nat, to: nat)
    requires start + HEADERS_SIZE <= to <= |s|
    ensures s[start..to] == s[start..start + HEADERS_SIZE] + s[start + HEADERS_SIZE..to]
  {}

  // With an mtu of 48 to 55 no 8 bytes of payload fit behind the headers: an empty fragment
  // leaves, and the recursion is called with the very message it started from.
  method RoundWithoutProgress(buffer: array<byte>, start: nat, length: nat, mtu: nat, offsetBytes: nat)
    returns (part: seq<byte>, nextStart: nat, nextLength: nat, nextOffset: nat)
    requires HEADERS_SIZE <= mtu < HEADERS_SIZE + 8 && length > mtu && start + length <= buffer.Length
    requires offsetBytes / 8 < 8192
    modifies buffer
    ensures part == Part(old(buffer[start..start + HEADERS_SIZE]), [], offsetBytes)
    ensures nextStart == start && nextLength == length && nextOffset == offsetBytes
    ensures buffer[start..start + length] == old(buffer[start..start + length])
  {
    hide Part;
    var chunk := Chunk(mtu);
    HeadersAndRest(buffer[..], start, start + length);
    part := SendPart(buffer, start, length, chunk, offsetBytes);
    HeadersAndRest(buffer[..], start, start + length);
    nextStart, nextLength, nextOffset := start + chunk, length - chunk, offsetBytes + chunk;
  }

  // The last fragment leaves.
  method SendLast(buffer: array<byte>, start: nat, length: nat, offsetBytes: nat) returns (last: seq<byte>)
    requires HEADERS_SIZE <= length && start + length <= buffer.Length
    requires offsetBytes / 8 < 8192 && length - HEADERS_SIZE + 8 < 65536
    modifies buffer
    ensures last == LastPart(
              old(Stretch(buffer, start, start + HEADERS_SIZE)),
              old(Stretch(buffer, start + HEADERS_SIZE, start + length)), offsetBytes)
  {
    hide LastPart;
    last := LastPart(buffer[start..start + HEADERS_SIZE], buffer[start + HEADERS_SIZE..start + length], offsetBytes);
    WriteAll(buffer, start, last);
  }

  // The message is the given stretch of the buffer; what is sent on is listed.
  method SendFragmented(buffer: array<byte>, start: nat, length: nat, mtu: nat, offsetBytes: nat)
    returns (sent: seq<seq<byte>>)
    requires mtu >= HEADERS_SIZE + 8 && length > mtu && start + length <= buffer.Length
    requires offsetBytes + length - HEADERS_SIZE + 8 < 65536
    modifies buffer
    ensures sent == Fragments(
              old(Stretch(buffer, start, start + HEADERS_SIZE)),
              old(Stretch(buffer, start + HEADERS_SIZE, start + length)),
              mtu, offsetBytes)
    ensures offsetBytes % 8 == 0 ==>
      AreFragmentsOf(sent, offsetBytes,
        old(Stretch(buffer, start, start + HEADERS_SIZE)),
        old(Stretch(buffer, start + HEADERS_SIZE, start + length)))
    decreases length
  {
    hide *;
    ghost var headers := Stretch(buffer, start, start + HEADERS_SIZE);
    ghost var payload := Stretch(buffer, start + HEADERS_SIZE, start + length);
    var chunk := Chunk(mtu);
    ghost var rest := payload[chunk..];
    FirstAndRest(headers, payload, mtu, offsetBytes);
    CutAt(buffer, start + HEADERS_SIZE, start + HEADERS_SIZE + chunk, start + length);
    var part := SendPart(buffer, start, length, chunk, offsetBytes);
    var nextStart, nextLength, nextOffset := start + chunk, length - chunk, offsetBytes + chunk;
    assert Stretch(buffer, nextStart, nextStart + HEADERS_SIZE) == headers;
    assert Stretch(buffer, nextStart + HEADERS_SIZE, nextStart + nextLength) == rest;
    if nextLength > mtu {
      var others := SendFragmented(buffer, nextStart, nextLength, mtu, nextOffset);
      return [part] + others;
    }
    var last := SendLast(buffer, nextStart, nextLength, nextOffset);
    sent := [part] + [last];
  }

  lemma FirstAndRest(headers: seq<byte>, payload: seq<byte>, mtu: nat, offset: nat)
    requires |headers| == HEADERS_SIZE && HEADERS_SIZE + 8 <= mtu < HEADERS_SIZE + |payload|
    requires offset + |payload| + 8 < 65536
    ensures var chunk, all := Chunk(mtu), Fragments(headers, payload, mtu, offset);
            && 0 < chunk <= |payload|
            && var rest := payload[chunk..];
            && all == [Part(headers, payload[..chunk], offset)] + Fragments(headers, rest, mtu, offset + chunk)
            && (HEADERS_SIZE + |rest| <= mtu ==>
                 Fragments(headers, rest, mtu, offset + chunk) == [LastPart(headers, rest, offset + chunk)])
            && (offset % 8 == 0 ==> AreFragmentsOf(all, offset, headers, payload))
  {
    hide Part, LastPart, Fragments, AreFragmentsOf;
    FragmentsUnfold(headers, payload, mtu, offset);
    FragmentsUnfold(headers, payload[Chunk(mtu)..], mtu, offset + Chunk(mtu));
    FragmentsAreOfIt(headers, payload, mtu, offset);
  }

  // The headers are saved and written again in front of what is left, over the end of
  // the fragment that was just sent.
  method SendPart(buffer: array<byte>, start: nat, length: nat, chunk: nat, offsetBytes: nat) returns (part: seq<byte>)
    requires HEADERS_SIZE + chunk <= length && start + length <= buffer.Length
    requires offsetBytes / 8 < 8192 && chunk + 8 < 65536
    modifies buffer
    ensures part == Part(old(Stretch(buffer, start, start + HEADERS_SIZE)),
      old(Stretch(buffer, start + HEADERS_SIZE, start + HEADERS_SIZE + chunk)), offsetBytes)
    ensures Stretch(buffer, start + chunk, start + chunk + HEADERS_SIZE)
            == old(Stretch(buffer, start, start + HEADERS_SIZE))
    ensures Stretch(buffer, start + chunk + HEADERS_SIZE, start + length)
            == old(Stretch(buffer, start + chunk + HEADERS_SIZE, start + length))
  {
    hide SetMore, SetOffset, SetPayloadLength;
    var msgHeader := buffer[start..start + HEADERS_SIZE];
    var end := start + HEADERS_SIZE + chunk;
    assert buffer[start..end] == msgHeader + buffer[start + HEADERS_SIZE..end];
    part := SetPayloadLength(buffer[start..end], chunk + 8);
    part := SetMore(SetOffset(part, offsetBytes / 8));
    WriteAll(buffer, start, part);
    WriteAll(buffer, start + chunk, msgHeader);
  }

  // Put bytes in place in the buffer.
  method WriteAll(buffer: array<byte>, at: nat, bytes: seq<byte>)
    requires at + |bytes| <= buffer.Length
    modifies buffer
    ensures buffer[at..at + |bytes|] == bytes
    ensures forall i | 0 <= i < buffer.Length && !(at <= i < at + |bytes|) :: buffer[i] == old(buffer[i])
  {
    forall i | 0 <= i < |bytes| {
      buffer[at + i] := bytes[i];
    }
  }

  datatype Outcome = PassedOn(packets: seq<seq<byte>>) | TooBig

  // Packets from outside: what fits is passed on, larger ones are cut up if they have a
  // fragment header and are otherwise answered with the mtu.
  method Incoming(buffer: array<byte>, length: nat, mtu: nat) returns (r: Outcome)
    requires mtu >= HEADERS_SIZE + 8 && length <= buffer.Length && length < 65536
    modifies buffer
    ensures var msg := old(buffer[..length]);
            var isLarge := length > mtu && old(buffer[0]) / 16 == 6;
            r == if !isLarge then PassedOn([msg])
                 else if msg[6] != FRAGMENT_TYPE then TooBig
                 else PassedOn(Fragments(msg[..HEADERS_SIZE], msg[HEADERS_SIZE..], mtu, 0))
  {
    hide Fragments;
    if length >= IP6_SIZE && buffer[0] / 16 == 6 && length > mtu {
      if buffer[6] == FRAGMENT_TYPE {
        var parts := SendFragmented(buffer, 0, length, mtu, 0);
        assert old(buffer[..length])[..HEADERS_SIZE] == old(buffer[0..0 + HEADERS_SIZE]);
        assert old(buffer[..length])[HEADERS_SIZE..] == old(buffer[0 + HEADERS_SIZE..0 + length]);
        return PassedOn(parts);
      }
      return TooBig;
    }
    r := PassedOn([buffer[..length]]);
  }
}
