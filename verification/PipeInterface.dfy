// One end of a pipe, interface/PipeInterface.c: the reactions to what is read as
// a function of the buffered bytes, and the object that buffers them in place.

module PipeInterface {
  import opened Bytes
  import opened Bits
  import opened LittleEndian
  import opened Framing

  datatype State = Initializing | Established | Lost

  datatype End = End(state: State, magic: nat, buffer: seq<byte>) {
    predicate Valid() {
      magic < Limit(8)
    }
  }

  // What is passed up: a message, or one whose length is counted below zero.
  datatype Upward = Message(payload: seq<byte>) | Negative(length: int)

  // What handling does: the end afterwards, the pings and pongs written, what is passed
  // up, and whether there may be more to handle.
  datatype Reaction = Reaction(after: End, sent: seq<Frame>, delivered: seq<Upward>, again: bool)

  function Empty(magic: nat, kind: nat): Frame {
    Frame(magic, kind, [])
  }

  // On the wire it is a header with a length of 0 and nothing else.
  lemma EmptyIsHeader(magic: nat, kind: nat)
    ensures Serialize(Empty(magic, kind)) == Encode(magic, 8) + Encode(kind, 4) + [0, 0, 0, 0]
  {
    assert Encode(0, 4) == [0] + ([0] + ([0] + ([0] + Encode(0, 0))));
  }

  // The first occurrence at or after a position, or -1.
  function FirstMatch(haystack: seq<byte>, needle: seq<byte>, from: nat): (at: int)
    ensures at == -1 || (from <= at && OccursAt(haystack, needle, at))
    ensures forall i :: from <= i < (if at == -1 then |haystack| + 1 else at) ==> !OccursAt(haystack, needle, i)
    decreases |haystack| - from
  {
    if from > |haystack| - |needle| then -1
    else if OccursAt(haystack, needle, from) then from
    else FirstMatch(haystack, needle, from + 1)
  }

  // The 32-bit sum of the length field and the size of the header.
  function FrameLength(s: seq<byte>): (length: nat)
    requires |s| >= HEADER_SIZE
    ensures length < 0x1_0000_0000
  {
    (LengthOf(s) + HEADER_SIZE) % 0x1_0000_0000
  }

  lemma ShortFrame(s: seq<byte>)
    ensures |s| >= HEADER_SIZE && !IsOverlong(s) ==> FrameLength(s) == HEADER_SIZE + LengthOf(s)
  {
    hide LengthOf;
  }

  // What a data frame passes up: its payload, or, where the sum has wrapped around, a
  // message of a negative length.
  function Data(s: seq<byte>): Upward
    requires |s| >= HEADER_SIZE && |s| >= FrameLength(s)
  {
    if FrameLength(s) >= HEADER_SIZE then Message(s[HEADER_SIZE..FrameLength(s)])
    else Negative(FrameLength(s) - HEADER_SIZE)
  }

  // A frame that is counted as 0 bytes: handling it takes nothing off the buffer.
  predicate IsStuck(e: End) {
    && |e.buffer| >= HEADER_SIZE && FrameLength(e.buffer) == 0
    && (e.state.Initializing? || (e.state.Established? && MagicOf(e.buffer) == e.magic))
  }

  // The header's magic settles an initializing end, or is adopted if it is smaller.
  function Greet(e: End): End
    requires |e.buffer| >= HEADER_SIZE && !e.state.Lost?
  {
    var other := MagicOf(e.buffer);
    if other == e.magic then e.(state := Established)
    else if other < e.magic then e.(magic := other)
    else e
  }

  // A pong that reaches an initializing end is answered with a ping.
  function Hello(e: End): seq<Frame>
    requires |e.buffer| >= HEADER_SIZE
  {
    if e.state.Initializing? && KindOf(e.buffer) == PONG then [Empty(e.magic, PING)] else []
  }

  // Look for the magic further on; if it is there, go on from it.
  function Resync(e: End): Reaction {
    var at := FirstMatch(e.buffer, Encode(e.magic, 8), 0);
    if at == -1 then Reaction(e.(state := Lost), [Empty(e.magic, PING)], [], false)
    else Reaction(End(Established, e.magic, e.buffer[at..]), [Empty(e.magic, PING)], [], true)
  }

  function Handle(e: End): (r: Reaction)
    requires e.Valid() && !e.state.Lost?
    ensures r.after.Valid()
    ensures r.again ==> !r.after.state.Lost? && (IsStuck(e) || |r.after.buffer| < |e.buffer|)
  {
    if |e.buffer| < HEADER_SIZE then Reaction(e, [], [], false)
    else if MagicOf(e.buffer) != e.magic && e.state.Established? then
      MagicNotAtStart(e.buffer, e.magic);
      Resync(e)
    else
      var kind, length := KindOf(e.buffer), FrameLength(e.buffer);
      var hello := Hello(e);
      var greeted := Greet(e);
      if |e.buffer| < length then Reaction(greeted, hello, [], false)
      else
        Reaction(greeted.(buffer := e.buffer[length..]),
          hello + if kind == PING then [Empty(greeted.magic, PONG)] else [],
          if kind == DATA then [Data(e.buffer)] else [],
          |e.buffer| > length)
  }

  lemma MagicNotAtStart(s: seq<byte>, magic: nat)
    requires |s| >= HEADER_SIZE && MagicOf(s) != magic && magic < Limit(8)
    ensures !OccursAt(s, Encode(magic, 8), 0)
  {
    DecodeAfterEncode(magic, 8);
  }

  // Handling until there is nothing more to handle, or until it goes round and round.
  function Run(e: End): (r: Reaction)
    requires e.Valid() && !e.state.Lost?
    ensures r.after.Valid()
    decreases |e.buffer|
  {
    if IsStuck(e) then Reaction(e, [], [], true)
    else
      var first := Handle(e);
      if !first.again then first
      else
        var later := Run(first.after);
        Preceded(first.sent, first.delivered, later)
  }

  // A reaction with what was done before it.
  function Preceded(sent: seq<Frame>, delivered: seq<Upward>, r: Reaction): Reaction {
    r.(sent := sent + r.sent, delivered := delivered + r.delivered)
  }

  lemma PrecededTwice(sent: seq<Frame>, delivered: seq<Upward>, sent2: seq<Frame>, delivered2: seq<Upward>, r: Reaction)
    ensures Preceded(sent, delivered, Preceded(sent2, delivered2, r))
            == Preceded(sent + sent2, delivered + delivered2, r)
    ensures Preceded([], [], r) == r
  {
    assert sent + (sent2 + r.sent) == sent + sent2 + r.sent;
    assert delivered + (delivered2 + r.delivered) == delivered + delivered2 + r.delivered;
  }

  // A frame that is counted as 0 bytes is met on the way.
  predicate Meets(e: End)
    requires e.Valid() && !e.state.Lost?
    decreases |e.buffer|
  {
    IsStuck(e) || (Handle(e).again && Meets(Handle(e).after))
  }

  // The loop goes on for at least so many rounds.
  predicate Loops(e: End, rounds: nat)
    requires e.Valid() && !e.state.Lost?
    decreases rounds
  {
    rounds == 0 || (Handle(e).again && Loops(Handle(e).after, rounds - 1))
  }

  // What so many rounds of the loop do.
  function Rounds(e: End, rounds: nat): (r: Reaction)
    requires e.Valid() && !e.state.Lost? && Loops(e, rounds)
    ensures r.again && r.after.Valid()
    decreases rounds
  {
    if rounds == 0 then Reaction(e, [], [], true)
    else Preceded(Handle(e).sent, Handle(e).delivered, Rounds(Handle(e).after, rounds - 1))
  }

  lemma StuckStays(e: End)
    requires e.Valid() && IsStuck(e)
    ensures Handle(e).again && IsStuck(Handle(e).after) && Handle(e).after.buffer == e.buffer
  {}

  lemma {:induction false} MeetsThenLoops(e: End, rounds: nat)
    requires e.Valid() && !e.state.Lost? && Meets(e)
    ensures Loops(e, rounds)
    decreases rounds
  {
    hide Handle, IsStuck;
    if rounds > 0 {
      if IsStuck(e) {
        StuckStays(e);
      }
      MeetsThenLoops(Handle(e).after, rounds - 1);
    }
  }

  lemma {:induction false} EndsOtherwise(e: End, rounds: nat)
    requires e.Valid() && !e.state.Lost? && !Meets(e) && rounds > |e.buffer|
    ensures !Loops(e, rounds)
    decreases |e.buffer|
  {
    hide Handle, IsStuck;
    if Handle(e).again {
      EndsOtherwise(Handle(e).after, rounds - 1);
    }
  }

  // The loop of one read never ends exactly where such a frame is met.
  lemma LoopsExactly(e: End)
    requires e.Valid() && !e.state.Lost?
    ensures (forall rounds: nat :: Loops(e, rounds)) <==> Meets(e)
    ensures Run(e).again <==> Meets(e)
  {
    hide Handle, IsStuck, Loops, Meets, Run;
    if Meets(e) {
      forall rounds: nat ensures Loops(e, rounds) {
        MeetsThenLoops(e, rounds);
      }
    } else {
      EndsOtherwise(e, |e.buffer| + 1);
    }
    RunEnds(e);
  }

  lemma {:induction false} RunEnds(e: End)
    requires e.Valid() && !e.state.Lost?
    ensures Run(e).again <==> Meets(e)
    decreases |e.buffer|
  {
    hide Handle, IsStuck;
    if !IsStuck(e) && Handle(e).again {
      RunEnds(Handle(e).after);
    }
  }

  // A header whose length field is less than 16 below 2^32 makes a frame of less than 16
  // bytes: it is taken off, and for data a message of a negative length is passed up.
  lemma WrappedIsNegative(e: End)
    requires e.Valid() && e.state.Established? && |e.buffer| >= HEADER_SIZE && MagicOf(e.buffer) == e.magic
    requires 0x1_0000_0000 - HEADER_SIZE <= LengthOf(e.buffer) < 0x1_0000_0000
    ensures var length := LengthOf(e.buffer) + HEADER_SIZE - 0x1_0000_0000;
            Handle(e) == Reaction(e.(buffer := e.buffer[length..]),
              if KindOf(e.buffer) == PING then [Empty(e.magic, PONG)] else [],
              if KindOf(e.buffer) == DATA then [Negative(length - HEADER_SIZE)] else [],
              |e.buffer| > length)
  {
    hide MagicOf, KindOf, LengthOf, Limit;
  }

  // The header is enough for the ends to agree: while the rest of its frame is missing
  // nothing is passed up, but the magic is settled, and a pong answered with a ping.
  lemma HeaderIsEnough(e: End)
    requires e.Valid() && e.state.Initializing? && HEADER_SIZE <= |e.buffer|
    requires |e.buffer| < HEADER_SIZE + LengthOf(e.buffer) < 0x1_0000_0000
    ensures var other, r := MagicOf(e.buffer), Handle(e);
            && r.delivered == [] && !r.again && r.after.buffer == e.buffer
            && r.sent == (if KindOf(e.buffer) == PONG then [Empty(e.magic, PING)] else [])
            && (r.after.state.Established? <==> other == e.magic)
            && (!r.after.state.Established? ==> r.after.state.Initializing?)
            && r.after.magic == if other < e.magic then other else e.magic
  {
    hide KindOf, LengthOf, Limit;
  }

  // The header of such a frame: the length field holds 0xFFFFFFF0.
  function Endless(magic: nat, kind: nat): (s: seq<byte>)
    ensures |s| == HEADER_SIZE
  {
    Encode(magic, 8) + Encode(kind, 4) + Encode(0xFFFF_FFF0, 4)
  }

  function Repeated<T>(x: T, n: nat): seq<T> {
    if n == 0 then [] else [x] + Repeated(x, n - 1)
  }

  lemma EndlessHeader(magic: nat, kind: nat)
    requires magic < Limit(8) && kind <= DATA
    ensures var s := Endless(magic, kind);
            MagicOf(s) == magic && KindOf(s) == kind && LengthOf(s) == 0xFFFF_FFF0
  {
    hide Encode, Decode, Limit;
    var s := Endless(magic, kind);
    assert s[..8] == Encode(magic, 8) && s[8..12] == Encode(kind, 4) && s[12..16] == Encode(0xFFFF_FFF0, 4);
    FourByteLimit();
    DecodeAfterEncode(magic, 8);
    DecodeAfterEncode(kind, 4);
    DecodeAfterEncode(0xFFFF_FFF0, 4);
  }

  lemma FourByteLimit()
    ensures Limit(4) == 0x1_0000_0000
  {
    hide Limit;
    LimitGrows(0);
    LimitGrows(1);
    LimitGrows(2);
    LimitGrows(3);
  }

  lemma EndlessRound(magic: nat, kind: nat)
    requires magic < Limit(8) && kind <= DATA
    ensures var e := End(Established, magic, Endless(magic, kind));
            && Handle(e) == Reaction(e, if kind == PING then [Empty(magic, PONG)] else [],
                                     if kind == DATA then [Negative(-16)] else [], true)
            && Meets(e)
  {
    hide Endless, MagicOf, KindOf, LengthOf;
    EndlessHeader(magic, kind);
  }

  // Such a header alone keeps an established end going for ever: after any number of
  // rounds it is still in the buffer, answered as often if it is a ping, and passed up as
  // often as a message of length -16 if it is data.
  lemma {:induction false} EndlessLoop(magic: nat, kind: nat, rounds: nat)
    requires magic < Limit(8) && kind <= DATA
    ensures var e := End(Established, magic, Endless(magic, kind));
            && Loops(e, rounds)
            && Rounds(e, rounds) == Reaction(e, if kind == PING then Repeated(Empty(magic, PONG), rounds) else [],
                                             if kind == DATA then Repeated(Negative(-16), rounds) else [], true)
  {
    hide Handle, Endless, Meets, IsStuck;
    EndlessRound(magic, kind);
    if rounds > 0 {
      EndlessLoop(magic, kind, rounds - 1);
    }
  }

  // One read of an end that is in sync.  What is left of a read that began while
  // initializing is dropped.
  function Read(e: End, chunk: seq<byte>): Reaction
    requires e.Valid() && !e.state.Lost?
  {
    var r := Run(e.(buffer := e.buffer + chunk));
    if e.state.Initializing? then r.(after := r.after.(buffer := [])) else r
  }

  // One read of an end that is not.
  function ReadDesynced(magic: nat, chunk: seq<byte>): Reaction
    requires magic < Limit(8)
  {
    var at := FirstMatch(chunk, Encode(magic, 8), 0);
    if at == -1 then Reaction(End(Lost, magic, chunk), [], [], false)
    else Handle(End(Established, magic, chunk[at..])).(again := false)
  }

  // ------------------------------------------------- an established end is a parser

  function Pongs(frames: seq<Frame>): seq<Frame> {
    if frames == [] then []
    else (if frames[0].kind == PING then [Empty(frames[0].magic, PONG)] else []) + Pongs(frames[1..])
  }

  function Messages(frames: seq<Frame>): seq<Upward> {
    if frames == [] then []
    else (if frames[0].kind == DATA then [Message(frames[0].payload)] else []) + Messages(frames[1..])
  }

  lemma {:induction false} PongsOfBoth(fs: seq<Frame>, gs: seq<Frame>)
    ensures Pongs(fs + gs) == Pongs(fs) + Pongs(gs)
  {
    if fs == [] {
      assert fs + gs == gs;
    } else {
      assert fs + gs == [fs[0]] + (fs[1..] + gs);
      PongsFirst(fs[0], fs[1..] + gs);
      PongsFirst(fs[0], fs[1..]);
      assert fs == [fs[0]] + fs[1..];
      PongsOfBoth(fs[1..], gs);
    }
  }

  lemma PongsFirst(f: Frame, fs: seq<Frame>)
    ensures Pongs([f] + fs) == (if f.kind == PING then [Empty(f.magic, PONG)] else []) + Pongs(fs)
  {
    assert ([f] + fs)[1..] == fs;
  }

  lemma {:induction false} MessagesOfBoth(fs: seq<Frame>, gs: seq<Frame>)
    ensures Messages(fs + gs) == Messages(fs) + Messages(gs)
  {
    if fs == [] {
      assert fs + gs == gs;
    } else {
      assert fs + gs == [fs[0]] + (fs[1..] + gs);
      MessagesFirst(fs[0], fs[1..] + gs);
      MessagesFirst(fs[0], fs[1..]);
      assert fs == [fs[0]] + fs[1..];
      MessagesOfBoth(fs[1..], gs);
    }
  }

  lemma MessagesFirst(f: Frame, fs: seq<Frame>)
    ensures Messages([f] + fs) == (if f.kind == DATA then [Message(f.payload)] else []) + Messages(fs)
  {
    assert ([f] + fs)[1..] == fs;
  }

  predicate InSync(e: End) {
    e.Valid() && e.state.Established? && Parse(e.magic, e.buffer).stop == Waiting
  }

  // A whole frame in the buffer is taken off as the parser takes it.
  lemma HandleTakesFrame(e: End)
    requires InSync(e) && |e.buffer| >= HEADER_SIZE && |e.buffer| >= HEADER_SIZE + LengthOf(e.buffer)
    ensures var length := HEADER_SIZE + LengthOf(e.buffer);
            var f := Frame(e.magic, KindOf(e.buffer), e.buffer[HEADER_SIZE..length]);
            var later := Parse(e.magic, e.buffer[length..]);
            && Parse(e.magic, e.buffer) == later.(frames := [f] + later.frames)
            && Handle(e) == Reaction(e.(buffer := e.buffer[length..]),
                 if f.kind == PING then [Empty(f.magic, PONG)] else [],
                 if f.kind == DATA then [Message(f.payload)] else [],
                 |e.buffer| > length)
    ensures !IsStuck(e) && InSync(Handle(e).after)
  {
    ShortFrame(e.buffer);
    hide FrameLength, MagicOf, KindOf, LengthOf;
  }

  lemma HandleWaits(e: End)
    requires InSync(e) && (|e.buffer| < HEADER_SIZE || |e.buffer| < HEADER_SIZE + LengthOf(e.buffer))
    ensures Parse(e.magic, e.buffer) == Parsed([], e.buffer, Waiting)
    ensures Handle(e) == Reaction(e, [], [], false) && !IsStuck(e)
  {
    ShortFrame(e.buffer);
    hide FrameLength, MagicOf, KindOf, LengthOf;
  }

  lemma {:induction false} RunIsParse(e: End)
    requires InSync(e)
    ensures var p := Parse(e.magic, e.buffer);
            Run(e) == Reaction(End(Established, e.magic, p.rest), Pongs(p.frames), Messages(p.frames), false)
    ensures !Meets(e)
    decreases |e.buffer|
  {
    hide Handle, Parse, IsStuck, LengthOf, KindOf;
    if |e.buffer| < HEADER_SIZE || |e.buffer| < HEADER_SIZE + LengthOf(e.buffer) {
      HandleWaits(e);
    } else {
      HandleTakesFrame(e);
      var later := Handle(e).after;
      assert Parse(e.magic, e.buffer).frames[1..] == Parse(e.magic, later.buffer).frames;
      RunIsParse(later);
      NothingLeft(later);
    }
  }

  lemma NothingLeft(e: End)
    ensures e.buffer == [] ==> Parse(e.magic, e.buffer) == Parsed([], [], Waiting)
  {}

  // Several reads, one after the other.
  function Reads(e: End, chunks: seq<seq<byte>>): Reaction
    requires e.Valid() && !e.state.Lost?
    decreases |chunks|
  {
    if chunks == [] then Reaction(e, [], [], false)
    else
      var first := Read(e, chunks[0]);
      if first.after.state.Lost? || first.again then first
      else
        Preceded(first.sent, first.delivered, Reads(first.after, chunks[1..]))
  }

  function Concat(chunks: seq<seq<byte>>): seq<byte> {
    if chunks == [] then [] else chunks[0] + Concat(chunks[1..])
  }

  lemma {:induction false} RestIsStuck(magic: nat, s: seq<byte>)
    ensures var p := Parse(magic, s); Parse(magic, p.rest) == Parsed([], p.rest, p.stop)
  {
    if |s| >= HEADER_SIZE && MagicOf(s) == magic && !IsOverlong(s) && |s| >= HEADER_SIZE + LengthOf(s) {
      RestIsStuck(magic, s[HEADER_SIZE + LengthOf(s)..]);
    }
  }

  // One read of an end in sync, in terms of the parser.
  lemma ReadIsParse(e: End, chunk: seq<byte>)
    requires InSync(e) && InSync(e.(buffer := e.buffer + chunk))
    ensures var p := Parse(e.magic, e.buffer + chunk);
            Read(e, chunk) == Reaction(End(Established, e.magic, p.rest), Pongs(p.frames), Messages(p.frames), false)
    ensures InSync(Read(e, chunk).after)
  {
    RunIsParse(e.(buffer := e.buffer + chunk));
    RestIsStuck(e.magic, e.buffer + chunk);
  }

  // However the stream is cut into reads, the same messages come out.
  lemma {:induction false} ReadsAreParse(e: End, chunks: seq<seq<byte>>)
    requires InSync(e) && InSync(e.(buffer := e.buffer + Concat(chunks)))
    requires Parse(e.magic, e.buffer).frames == []
    ensures var p := Parse(e.magic, e.buffer + Concat(chunks));
            Reads(e, chunks) == Reaction(End(Established, e.magic, p.rest), Pongs(p.frames), Messages(p.frames), false)
    decreases |chunks|
  {
    hide Parse, Read;
    if chunks == [] {
      assert e.buffer + [] == e.buffer;
      RestIsStuck(e.magic, e.buffer);
      NoFramesYet(e.magic, e.buffer);
    } else {
      var c, cs := chunks[0], chunks[1..];
      var first := Parse(e.magic, e.buffer + c);
      assert e.buffer + Concat(chunks) == (e.buffer + c) + Concat(cs);
      ParseResumes(e.magic, e.buffer + c, Concat(cs));
      ReadIsParse(e, c);
      RestIsStuck(e.magic, e.buffer + c);
      ReadsAreParse(Read(e, c).after, cs);
      MessagesOfBoth(first.frames, Parse(e.magic, first.rest + Concat(cs)).frames);
      PongsOfBoth(first.frames, Parse(e.magic, first.rest + Concat(cs)).frames);
    }
  }

  lemma NoFramesYet(magic: nat, s: seq<byte>)
    requires Parse(magic, s).frames == []
    ensures Parse(magic, s).rest == s
  {}

  // Frames written at one end, cut into reads anywhere, and perhaps not all of them
  // read yet: exactly the whole messages among them have been passed up, in order,
  // and the buffer, which has room for more, holds what has come of the next frame.
  lemma StreamIsDelivered(magic: nat, frames: seq<Frame>, chunks: seq<seq<byte>>, later: seq<byte>) returns (n: nat)
    requires magic < Limit(8) && AllSent(magic, frames)
    requires Concat(chunks) + later == SerializeAll(frames)
    ensures n <= |frames|
    ensures var r := Reads(End(Established, magic, []), chunks);
            && r.after.state.Established? && r.after.magic == magic
            && r.delivered == Messages(frames[..n])
            && r.after.buffer + later == SerializeAll(frames[n..])
            && |r.after.buffer| < MAX_MESSAGE_SIZE
            && Parse(magic, r.after.buffer).frames == []
    ensures later == [] ==> n == |frames|
  {
    var e := End(Established, magic, []);
    assert e.buffer + Concat(chunks) == Concat(chunks);
    PrefixIsParsed(magic, frames, Concat(chunks), later);
    ReadsAreParse(e, chunks);
    var p := Parse(magic, Concat(chunks));
    n := |p.frames|;
    assert p.frames == frames[..n];
    WaitingHasRoom(magic, Concat(chunks));
    RestIsStuck(magic, Concat(chunks));
    if later == [] {
      assert p.rest + later == p.rest;
      ParseAfterSerialize(magic, frames);
      assert Concat(chunks) + [] == Concat(chunks);
    }
  }

  // --------------------------------------------------------------- the object itself

  class Pipe {
    const message: array<byte>  // message.as.bytes
    var messageReceived: nat
    var syncMagic: nat
    var state: State
    var outPipe: seq<byte>      // what was written to the outgoing pipe
    var upper: seq<Upward>      // what was passed to the upper layer

    ghost predicate Valid()
      reads this`messageReceived, this`syncMagic
    {
      message.Length == MAX_MESSAGE_SIZE && messageReceived <= MAX_MESSAGE_SIZE && syncMagic < Limit(8)
    }

    ghost function Contents(): (e: End)
      requires Valid()
      reads this, message
      ensures e.Valid()
    {
      End(state, syncMagic, message[..messageReceived])
    }

    constructor (magic: nat)
      requires magic < Limit(8)
      ensures Valid() && fresh(message)
      ensures Contents() == End(Initializing, magic, []) && upper == []
      ensures outPipe == Serialize(Empty(magic, PING))
    {
      message := new byte[MAX_MESSAGE_SIZE];
      messageReceived := 0;
      syncMagic := magic;
      state := Initializing;
      upper := [];
      outPipe := Serialize(Empty(magic, PING));
    }

    method SendEmpty(kind: nat)
      modifies this`outPipe
      ensures outPipe == old(outPipe) + Serialize(Empty(syncMagic, kind))
    {
      outPipe := outPipe + Serialize(Empty(syncMagic, kind));
    }

    // Refused until the ends have agreed.  taken is how many bytes the pipe accepts.
    method SendMessage(payload: seq<byte>, taken: nat) returns (ok: bool)
      modifies this`outPipe
      ensures state.Initializing? ==> !ok && outPipe == old(outPipe)
      ensures !state.Initializing? ==>
        var bytes := Serialize(Frame(syncMagic, DATA, payload));
        && (ok <==> taken >= |bytes|)
        && outPipe == old(outPipe) + if ok then bytes else bytes[..taken]
    {
      if state.Initializing? {
        return false;
      }
      var bytes := Serialize(Frame(syncMagic, DATA, payload));
      ok := taken >= |bytes|;
      outPipe := outPipe + if ok then bytes else bytes[..taken];
    }

    // Move the bytes from a position on to the start of the buffer.
    method MoveToStart(from: nat)
      requires Valid() && from <= messageReceived
      modifies this`messageReceived, message
      ensures Valid() && Contents() == old(Contents()).(buffer := old(message[from..messageReceived]))
    {
      forall i | 0 <= i < messageReceived - from {
        message[i] := message[from + i];
      }
      messageReceived := messageReceived - from;
    }

    method TryReestablish() returns (found: bool)
      requires Valid()
      modifies this`messageReceived, this`state, message
      ensures Valid()
      ensures var at := FirstMatch(old(message[..messageReceived]), Encode(syncMagic, 8), 0);
              && (found <==> at != -1)
              && Contents() ==
                if at == -1 then old(Contents())
                else End(Established, syncMagic, old(message[..messageReceived])[at..])
    {
      var nextFrame := MemMem(message[..messageReceived], Encode(syncMagic, 8));
      FirstMatchIsMemMem(message[..messageReceived], Encode(syncMagic, 8), nextFrame);
      if nextFrame == -1 {
        return false;
      }
      assert message[nextFrame..messageReceived] == message[..messageReceived][nextFrame..];
      MoveToStart(nextFrame);
      state := Established;
      found := true;
    }

    method LoseSync() returns (again: bool)
      requires Valid() && messageReceived >= HEADER_SIZE
      modifies this, message
      ensures Valid()
      ensures var r := Resync(old(Contents()));
              && upper == old(upper) + r.delivered
              && Contents() == r.after && again == r.again && outPipe == old(outPipe) + SerializeAll(r.sent)
    {
      hide FirstMatch, Serialize, SerializeAll, Encode, Limit;
      state := Lost;
      again := TryReestablish();
      SendEmpty(PING);
      SerializeOne(Empty(syncMagic, PING));
    }

    method GreetOther()
      requires Valid() && !state.Lost? && messageReceived >= HEADER_SIZE
      requires state.Established? ==> MagicOf(message[..messageReceived]) == syncMagic
      modifies this`state, this`syncMagic, this`outPipe
      ensures Valid() && Contents() == Greet(old(Contents()))
      ensures outPipe == old(outPipe) + SerializeAll(Hello(old(Contents())))
    {
      hide SerializeAll, Serialize;
      SerializeOne(Empty(syncMagic, PING));
      NothingIsSerialized();
      if state.Initializing? && KindOf(message[..messageReceived]) == PONG {
        SendEmpty(PING);
      }
      var other := MagicOf(message[..messageReceived]);
      if other != syncMagic {
        if other < syncMagic {
          syncMagic := other;
        }
      } else if state.Initializing? {
        state := Established;
      }
    }

    // Passes a message up; its length is a signed number.
    method HandleData(length: nat)
      requires Valid() && HEADER_SIZE <= messageReceived && length <= messageReceived
      requires length == FrameLength(message[..messageReceived])
      modifies this`upper
      ensures upper == old(upper) + [Data(Contents().buffer)]
    {
      if length >= HEADER_SIZE {
        PartsOfPrefix(message[..], messageReceived, HEADER_SIZE, length);
        upper := upper + [Message(message[HEADER_SIZE..length])];
      } else {
        upper := upper + [Negative(length - HEADER_SIZE)];
      }
    }

    method HandleMessage() returns (again: bool)
      requires Valid() && !state.Lost?
      modifies this, message
      ensures Valid()
      ensures var r := Handle(old(Contents()));
              && Contents() == r.after && again == r.again
              && outPipe == old(outPipe) + SerializeAll(r.sent)
              && upper == old(upper) + r.delivered
    {
      hide SerializeAll, Serialize, Greet, Hello, FrameLength, Data, Resync;
      ghost var e := Contents();
      NothingIsSerialized();
      if messageReceived < HEADER_SIZE {
        return false;
      }
      if MagicOf(message[..messageReceived]) != syncMagic && state.Established? {
        again := LoseSync();
        return;
      }
      GreetOther();
      var kind := KindOf(message[..messageReceived]);
      var length := FrameLength(message[..messageReceived]);
      if messageReceived < length {
        return false;
      }
      SerializeAppended(Hello(e), Empty(syncMagic, PONG));
      assert e.buffer == message[..messageReceived];
      PartsOfPrefix(message[..], messageReceived, length, length);
      if kind == PING {
        SendEmpty(PONG);
      } else if kind == DATA {
        HandleData(length);
      }
      again := messageReceived - length > 0;
      MoveToStart(length);
    }

    // One event on the incoming pipe while in sync: take what there is to read, as much
    // of it as there is room for, and handle every message in the buffer.  That ends unless
    // a frame that is counted as 0 bytes is met.
    method GetMessage(chunk: seq<byte>)
      requires Valid() && !state.Lost? && messageReceived + |chunk| <= MAX_MESSAGE_SIZE
      requires !Meets(Contents().(buffer := Contents().buffer + chunk))
      modifies this, message
      ensures Valid()
      ensures var r := Read(old(Contents()), chunk);
              && Contents() == r.after
              && outPipe == old(outPipe) + SerializeAll(r.sent)
              && upper == old(upper) + r.delivered
    {
      hide Handle, Meets, IsStuck, SerializeAll, Run, Preceded;
      DoRead(chunk);
      var before := state;
      ghost var e := Contents();
      ghost var sent: seq<Frame>, delivered: seq<Upward> := [], [];
      NothingIsSerialized();
      PrecededTwice([], [], [], [], Run(e));
      var again := true;
      while again
        invariant Valid()
        invariant again ==> !state.Lost? && !Meets(Contents())
        invariant outPipe == old(outPipe) + SerializeAll(sent) && upper == old(upper) + delivered
        invariant again ==> Run(e) == Preceded(sent, delivered, Run(Contents()))
        invariant !again ==> Run(e) == Reaction(Contents(), sent, delivered, false)
        decreases again, messageReceived
      {
        ghost var now := Contents();
        RunStep(now, sent, delivered);
        SerializeBoth(sent, Handle(now).sent);
        again := HandleMessage();
        sent, delivered := sent + Handle(now).sent, delivered + Handle(now).delivered;
      }
      if before.Initializing? {
        messageReceived := 0;
      }
    }

    // The bytes that a read puts behind the ones in the buffer.
    method DoRead(chunk: seq<byte>)
      requires Valid() && messageReceived + |chunk| <= MAX_MESSAGE_SIZE
      modifies this`messageReceived, message
      ensures Valid() && Contents() == old(Contents()).(buffer := old(Contents()).buffer + chunk)
    {
      forall i | 0 <= i < |chunk| {
        message[messageReceived + i] := chunk[i];
      }
      messageReceived := messageReceived + |chunk|;
    }

    // One event while sync is lost: the buffer is overwritten, searched for the magic,
    // and one message handled if it is there.
    method GetMessageDesynced(chunk: seq<byte>)
      requires Valid() && state.Lost? && |chunk| <= MAX_MESSAGE_SIZE
      modifies this, message
      ensures Valid()
      ensures var r := ReadDesynced(old(syncMagic), chunk);
              && Contents() == r.after
              && outPipe == old(outPipe) + SerializeAll(r.sent)
              && upper == old(upper) + r.delivered
    {
      hide Handle, SerializeAll;
      NothingIsSerialized();
      messageReceived := 0;
      DoRead(chunk);
      assert message[..messageReceived] == chunk;
      var found := TryReestablish();
      if found {
        var _ := HandleMessage();
      }
    }
  }

  lemma PartsOfPrefix(s: seq<byte>, n: nat, from: nat, to: nat)
    requires from <= to <= n <= |s|
    ensures s[..n][to..] == s[to..n] && s[..n][from..to] == s[from..to]
  {}

  lemma SerializeOne(f: Frame)
    ensures SerializeAll([f]) == Serialize(f)
  {
    assert [f][1..] == [];
  }

  lemma RunStep(e: End, sent: seq<Frame>, delivered: seq<Upward>)
    requires e.Valid() && !e.state.Lost? && !Meets(e)
    ensures var h := Handle(e);
            Preceded(sent, delivered, Run(e)) ==
              if h.again then Preceded(sent + h.sent, delivered + h.delivered, Run(h.after))
              else Reaction(h.after, sent + h.sent, delivered + h.delivered, false)
    ensures !IsStuck(e) && (Handle(e).again ==> !Meets(Handle(e).after))
  {
    hide Handle, IsStuck;
    if Handle(e).again {
      PrecededTwice(sent, delivered, Handle(e).sent, Handle(e).delivered, Run(Handle(e).after));
    }
  }

  lemma {:induction false} SerializeBoth(fs: seq<Frame>, gs: seq<Frame>)
    ensures SerializeAll(fs + gs) == SerializeAll(fs) + SerializeAll(gs)
  {
    if fs == [] {
      assert fs + gs == gs;
    } else {
      assert (fs + gs)[1..] == fs[1..] + gs;
      SerializeBoth(fs[1..], gs);
    }
  }

  lemma SerializeAppended(frames: seq<Frame>, f: Frame)
    ensures SerializeAll(frames + [f]) == SerializeAll(frames) + Serialize(f)
    ensures SerializeAll(frames + []) == SerializeAll(frames)
  {
    SerializeBoth(frames, [f]);
    SerializeFirst(f, []);
    assert frames + [] == frames;
  }

  lemma FirstMatchIsMemMem(haystack: seq<byte>, needle: seq<byte>, found: int)
    requires needle != []
    requires found == -1 || OccursAt(haystack, needle, found)
    requires haystack != [] ==>
      forall i :: 0 <= i < (if found == -1 then |haystack| else found) ==> !OccursAt(haystack, needle, i)
    ensures found == FirstMatch(haystack, needle, 0)
  {
  }
}
