// The frames of interface/PipeInterface.c as a stream parser: what a byte stream
// means, whatever way it is cut into reads.

module Framing {
  import opened Bytes
  import opened LittleEndian

  const PING: nat := 0
  const PONG: nat := 1
  const DATA: nat := 2

  const HEADER_SIZE: nat := 16
  const MAX_MESSAGE_SIZE: nat := 65535

  datatype Frame = Frame(magic: nat, kind: nat, payload: seq<byte>)

  // A frame that can be sent: its fields fit their widths and it fits the buffer.
  predicate IsFrame(f: Frame) {
    && f.magic < Limit(8) && f.kind < Limit(4)
    && HEADER_SIZE + |f.payload| <= MAX_MESSAGE_SIZE
  }

  function Serialize(f: Frame): (s: seq<byte>)
    ensures |s| == HEADER_SIZE + |f.payload|
  {
    Encode(f.magic, 8) + Encode(f.kind, 4) + Encode(|f.payload|, 4) + f.payload
  }

  function SerializeAll(frames: seq<Frame>): seq<byte> {
    if frames == [] then [] else Serialize(frames[0]) + SerializeAll(frames[1..])
  }

  // The fields of the header at the start of some bytes.
  function MagicOf(s: seq<byte>): nat
    requires |s| >= HEADER_SIZE
  {
    Decode(s[..8])
  }

  function KindOf(s: seq<byte>): nat
    requires |s| >= HEADER_SIZE
  {
    Decode(s[8..12])
  }

  function LengthOf(s: seq<byte>): nat
    requires |s| >= HEADER_SIZE
  {
    Decode(s[12..16])
  }

  lemma HeaderOf(f: Frame, t: seq<byte>)
    requires IsFrame(f)
    ensures var s := Serialize(f) + t;
            MagicOf(s) == f.magic && KindOf(s) == f.kind && LengthOf(s) == |f.payload|
            && s[16..16 + |f.payload|] == f.payload && s[16 + |f.payload|..] == t
  {
    hide Encode, Decode, Limit;
    var s := Serialize(f) + t;
    assert s[..8] == Encode(f.magic, 8) && s[8..12] == Encode(f.kind, 4) && s[12..16] == Encode(|f.payload|, 4);
    DecodeAfterEncode(f.magic, 8);
    DecodeAfterEncode(f.kind, 4);
    FourBytes(|f.payload|);
    DecodeAfterEncode(|f.payload|, 4);
  }

  lemma FourBytes(n: nat)
    requires n <= MAX_MESSAGE_SIZE
    ensures n < Limit(4)
  {
    LimitGrows(0);
    LimitGrows(1);
    LimitGrows(2);
    LimitGrows(3);
  }

  // A header that announces a frame larger than the buffer.
  predicate IsOverlong(s: seq<byte>) {
    |s| >= HEADER_SIZE && HEADER_SIZE + LengthOf(s) > MAX_MESSAGE_SIZE
  }

  // How the parser stops: for want of more bytes, at a header with another magic,
  // or at a header whose frame can never arrive whole.
  datatype Stop = Waiting | Desynced | Overlong

  datatype Parsed = Parsed(frames: seq<Frame>, rest: seq<byte>, stop: Stop)

  function Parse(magic: nat, s: seq<byte>): Parsed {
    if |s| < HEADER_SIZE then Parsed([], s, Waiting)
    else if MagicOf(s) != magic then Parsed([], s, Desynced)
    else if IsOverlong(s) then Parsed([], s, Overlong)
    else if |s| < HEADER_SIZE + LengthOf(s) then Parsed([], s, Waiting)
    else
      var length := HEADER_SIZE + LengthOf(s);
      var later := Parse(magic, s[length..]);
      later.(frames := [Frame(magic, KindOf(s), s[HEADER_SIZE..length])] + later.frames)
  }

  // A parser that waits always has room for another byte.
  lemma {:induction false} WaitingHasRoom(magic: nat, s: seq<byte>)
    ensures Parse(magic, s).stop == Waiting ==> |Parse(magic, s).rest| < MAX_MESSAGE_SIZE
    ensures |Parse(magic, s).rest| <= |s|
  {
    if |s| >= HEADER_SIZE && MagicOf(s) == magic && !IsOverlong(s) && |s| >= HEADER_SIZE + LengthOf(s) {
      WaitingHasRoom(magic, s[HEADER_SIZE + LengthOf(s)..]);
    }
  }

  // A header does not change when more bytes come.
  lemma HeaderStays(s: seq<byte>, t: seq<byte>)
    requires |s| >= HEADER_SIZE
    ensures MagicOf(s + t) == MagicOf(s) && KindOf(s + t) == KindOf(s) && LengthOf(s + t) == LengthOf(s)
  {
    assert (s + t)[..8] == s[..8] && (s + t)[8..12] == s[8..12] && (s + t)[12..16] == s[12..16];
  }

  predicate HasFrame(magic: nat, s: seq<byte>) {
    |s| >= HEADER_SIZE && MagicOf(s) == magic && !IsOverlong(s) && |s| >= HEADER_SIZE + LengthOf(s)
  }

  // The first frame of what is parsed.
  lemma ParseUnfolds(magic: nat, s: seq<byte>)
    ensures HasFrame(magic, s) ==>
      var length := HEADER_SIZE + LengthOf(s);
      var later := Parse(magic, s[length..]);
      Parse(magic, s) == later.(frames := [Frame(magic, KindOf(s), s[HEADER_SIZE..length])] + later.frames)
    ensures !HasFrame(magic, s) ==> Parse(magic, s).frames == [] && Parse(magic, s).rest == s
    ensures !HasFrame(magic, s) && Parse(magic, s).stop != Waiting ==>
      |s| >= HEADER_SIZE && (MagicOf(s) != magic || IsOverlong(s))
      && Parse(magic, s).stop == if MagicOf(s) != magic then Desynced else Overlong
  {}

  // A frame that is there, and a reason to stop, stay when more bytes come.
  lemma FrameStays(magic: nat, s: seq<byte>, t: seq<byte>)
    ensures HasFrame(magic, s) ==>
      var length := HEADER_SIZE + LengthOf(s);
      && HasFrame(magic, s + t) && LengthOf(s + t) == LengthOf(s) && KindOf(s + t) == KindOf(s)
      && (s + t)[length..] == s[length..] + t && (s + t)[HEADER_SIZE..length] == s[HEADER_SIZE..length]
    ensures !HasFrame(magic, s) && Parse(magic, s).stop != Waiting ==>
      Parse(magic, s + t) == Parsed([], s + t, Parse(magic, s).stop)
  {
    if |s| >= HEADER_SIZE {
      HeaderStays(s, t);
    }
  }

  // The parser can be stopped and taken up again at any byte.
  lemma {:induction false} ParseResumes(magic: nat, s: seq<byte>, t: seq<byte>)
    ensures var first := Parse(magic, s);
            Parse(magic, s + t) ==
              if first.stop != Waiting then first.(rest := first.rest + t)
              else var second := Parse(magic, first.rest + t);
                second.(frames := first.frames + second.frames)
    decreases |s|
  {
    hide Parse, MagicOf, KindOf, LengthOf, IsOverlong, HasFrame;
    ParseUnfolds(magic, s);
    FrameStays(magic, s, t);
    if HasFrame(magic, s) {
      LengthIsInside(magic, s);
      var length := HEADER_SIZE + LengthOf(s);
      ParseResumes(magic, s[length..], t);
      ParseUnfolds(magic, s + t);
      var first := Parse(magic, s[length..]);
      var f, second := Frame(magic, KindOf(s), s[HEADER_SIZE..length]), Parse(magic, first.rest + t);
      assert [f] + (first.frames + second.frames) == ([f] + first.frames) + second.frames;
    } else {
      assert [] + Parse(magic, s + t).frames == Parse(magic, s + t).frames;
    }
  }

  lemma LengthIsInside(magic: nat, s: seq<byte>)
    requires HasFrame(magic, s)
    ensures |s| >= HEADER_SIZE && |s| >= HEADER_SIZE + LengthOf(s)
  {}

  ghost predicate AllSent(magic: nat, frames: seq<Frame>) {
    forall f <- frames :: IsFrame(f) && f.magic == magic
  }

  // Parsing undoes serializing ...
  lemma {:induction false} ParseAfterSerialize(magic: nat, frames: seq<Frame>)
    requires AllSent(magic, frames)
    ensures Parse(magic, SerializeAll(frames)) == Parsed(frames, [], Waiting)
  {
    if frames != [] {
      var f, more := frames[0], SerializeAll(frames[1..]);
      HeaderOf(f, more);
      ParseAfterSerialize(magic, frames[1..]);
      assert [f] + frames[1..] == frames;
    }
  }

  lemma HeaderIsSerialized(s: seq<byte>)
    requires |s| >= HEADER_SIZE && |s| >= HEADER_SIZE + LengthOf(s) && !IsOverlong(s)
    ensures var f := Frame(MagicOf(s), KindOf(s), s[HEADER_SIZE..HEADER_SIZE + LengthOf(s)]);
            IsFrame(f) && Serialize(f) == s[..HEADER_SIZE + LengthOf(s)]
  {
    hide Encode, Decode, Limit;
    EncodeAfterDecode(s[..8]);
    EncodeAfterDecode(s[8..12]);
    EncodeAfterDecode(s[12..16]);
    var length := HEADER_SIZE + LengthOf(s);
    assert s[..8] + s[8..12] + s[12..16] + s[16..length] == s[..length];
  }

  lemma NothingIsSerialized()
    ensures SerializeAll([]) == []
  {}

  lemma SerializeFirst(f: Frame, frames: seq<Frame>)
    ensures SerializeAll([f] + frames) == Serialize(f) + SerializeAll(frames)
  {
    assert ([f] + frames)[1..] == frames;
  }

  lemma SerializeStep(f: Frame, frames: seq<Frame>, s: seq<byte>, length: nat, rest: seq<byte>)
    requires length <= |s| && Serialize(f) == s[..length] && SerializeAll(frames) + rest == s[length..]
    ensures SerializeAll([f] + frames) + rest == s
  {
    hide *;
    SerializeFirst(f, frames);
    assert s[..length] + s[length..] == s;
    assert Serialize(f) + SerializeAll(frames) + rest == Serialize(f) + (SerializeAll(frames) + rest);
  }

  // ... and serializing undoes parsing: the frames and the rest are the stream.
  lemma {:induction false} SerializeAfterParse(magic: nat, s: seq<byte>)
    ensures SerializeAll(Parse(magic, s).frames) + Parse(magic, s).rest == s
  {
    hide Serialize, MagicOf, KindOf, IsFrame, SerializeAll;
    NothingIsSerialized();
    if |s| >= HEADER_SIZE && MagicOf(s) == magic && !IsOverlong(s) && |s| >= HEADER_SIZE + LengthOf(s) {
      var length := HEADER_SIZE + LengthOf(s);
      var later := Parse(magic, s[length..]);
      var f := Frame(magic, KindOf(s), s[HEADER_SIZE..length]);
      SerializeAfterParse(magic, s[length..]);
      HeaderIsSerialized(s);
      SerializeStep(f, later.frames, s, length, later.rest);
    }
  }

  lemma {:induction false} ParsedFramesAreFrames(magic: nat, s: seq<byte>)
    ensures AllSent(magic, Parse(magic, s).frames)
  {
    hide Serialize, IsFrame;
    if |s| >= HEADER_SIZE && MagicOf(s) == magic && !IsOverlong(s) && |s| >= HEADER_SIZE + LengthOf(s) {
      HeaderIsSerialized(s);
      ParsedFramesAreFrames(magic, s[HEADER_SIZE + LengthOf(s)..]);
    }
  }

  // A prefix of a stream of frames is parsed into a prefix of the frames, and what
  // is left over begins the next one.
  lemma PrefixIsParsed(magic: nat, frames: seq<Frame>, s: seq<byte>, t: seq<byte>)
    requires AllSent(magic, frames) && s + t == SerializeAll(frames)
    ensures Parse(magic, s).stop == Waiting
    ensures Parse(magic, s).frames <= frames
    ensures Parse(magic, s).rest + t == SerializeAll(frames[|Parse(magic, s).frames|..])
  {
    ParseAfterSerialize(magic, frames);
    ParseResumes(magic, s, t);
    var first := Parse(magic, s);
    SerializeAfterParse(magic, first.rest + t);
    assert frames[|first.frames|..] == Parse(magic, first.rest + t).frames;
    var later := Parse(magic, first.rest + t);
    assert SerializeAll(later.frames) + later.rest == first.rest + t;
    assert SerializeAll(later.frames) + [] == SerializeAll(later.frames);
  }
}
