// How an end of a pipe finds its way back into the stream: bytes that are not part of a
// frame are skipped up to the next magic, and what follows is handled as it should be.

module PipeResync {
  import opened Bytes
  import opened Bits
  import opened LittleEndian
  import opened Framing
  import opened PipeInterface

  // The magic does not begin in these bytes, not even to end in what comes later.
  ghost predicate IsNoise(magic: nat, noise: seq<byte>, later: seq<byte>) {
    forall i | 0 <= i < |noise| :: !OccursAt(noise + later, Encode(magic, 8), i)
  }

  predicate BeginsWithMagic(magic: nat, s: seq<byte>) {
    |s| >= 8 && s[..8] == Encode(magic, 8)
  }

  lemma NextMagic(magic: nat, noise: seq<byte>, later: seq<byte>)
    requires IsNoise(magic, noise, later) && BeginsWithMagic(magic, later)
    ensures FirstMatch(noise + later, Encode(magic, 8), 0) == |noise|
    ensures (noise + later)[|noise|..] == later
  {
    hide Encode, FirstMatch;
    var s := noise + later;
    assert s[|noise|..|noise| + 8] == later[..8];
    assert OccursAt(s, Encode(magic, 8), |noise|);
  }

  lemma NoiseIsNoHeader(magic: nat, noise: seq<byte>, later: seq<byte>)
    requires noise != [] && IsNoise(magic, noise, later) && |noise + later| >= HEADER_SIZE
    ensures MagicOf(noise + later) != magic
  {
    hide Encode, Decode;
    var s := noise + later;
    EncodeAfterDecode(s[..8]);
    assert !OccursAt(s, Encode(magic, 8), 0);
  }

  // An end that meets noise asks for an answer and goes on from the next magic.
  lemma NoiseIsSkipped(magic: nat, noise: seq<byte>, later: seq<byte>)
    requires magic < Limit(8) && noise != [] && IsNoise(magic, noise, later) && BeginsWithMagic(magic, later)
    requires |noise + later| >= HEADER_SIZE
    ensures Run(End(Established, magic, noise + later))
         == Preceded([Empty(magic, PING)], [], Run(End(Established, magic, later)))
  {
    hide Encode, MagicOf, FirstMatch, Limit;
    NextMagic(magic, noise, later);
    NoiseIsNoHeader(magic, noise, later);
  }

  // Where the magic is nowhere to be found, sync is lost, and nothing is passed up.
  lemma SyncIsLost(magic: nat, noise: seq<byte>)
    requires magic < Limit(8) && |noise| >= HEADER_SIZE && IsNoise(magic, noise, [])
    ensures Run(End(Established, magic, noise))
         == Reaction(End(Lost, magic, noise), [Empty(magic, PING)], [], false)
  {
    hide Encode, MagicOf, Limit, FirstMatch;
    assert noise + [] == noise;
    NoiseIsNoHeader(magic, noise, []);
    forall i | 0 <= i < |noise|
      ensures !OccursAt(noise, Encode(magic, 8), i)
    {
      assert !OccursAt(noise + [], Encode(magic, 8), i);
    }
    NoMatch(noise, Encode(magic, 8));
  }

  lemma NoMatch(s: seq<byte>, needle: seq<byte>)
    requires needle != [] && forall i | 0 <= i < |s| :: !OccursAt(s, needle, i)
    ensures FirstMatch(s, needle, 0) == -1
  {
    hide OccursAt;
    var at := FirstMatch(s, needle, 0);
    OccursInside(s, needle, at);
  }

  lemma OccursInside(s: seq<byte>, needle: seq<byte>, i: int)
    requires needle != []
    ensures OccursAt(s, needle, i) ==> 0 <= i < |s|
  {}

  lemma SerializedBegins(magic: nat, frames: seq<Frame>)
    requires frames != [] && frames[0].magic == magic
    ensures BeginsWithMagic(magic, SerializeAll(frames)) && |SerializeAll(frames)| >= HEADER_SIZE
  {
    hide Encode;
    var s := Serialize(frames[0]);
    assert s[..8] == Encode(magic, 8);
    assert SerializeAll(frames)[..8] == s[..8];
  }

  // Whole frames in front of something are handled first.
  lemma OneFrameFirst(magic: nat, f: Frame, tail: seq<byte>)
    requires magic < Limit(8) && IsFrame(f) && f.magic == magic && tail != []
    ensures Run(End(Established, magic, Serialize(f) + tail)) == Preceded(
              if f.kind == PING then [Empty(magic, PONG)] else [],
              if f.kind == DATA then [Message(f.payload)] else [],
              Run(End(Established, magic, tail)))
  {
    hide Serialize, Encode, MagicOf, KindOf, LengthOf, Limit, FrameLength;
    HeaderOf(f, tail);
    ShortFrame(Serialize(f) + tail);
  }

  lemma {:induction false} FramesFirst(magic: nat, frames: seq<Frame>, tail: seq<byte>)
    requires magic < Limit(8) && AllSent(magic, frames) && tail != []
    ensures Run(End(Established, magic, SerializeAll(frames) + tail))
         == Preceded(Pongs(frames), Messages(frames), Run(End(Established, magic, tail)))
  {
    hide Serialize, Run, Limit, IsFrame;
    if frames == [] {
      assert SerializeAll(frames) + tail == tail;
      PrecededTwice([], [], [], [], Run(End(Established, magic, tail)));
    } else {
      var f, rest := frames[0], frames[1..];
      assert SerializeAll(frames) + tail == Serialize(f) + (SerializeAll(rest) + tail);
      OneFrameFirst(magic, f, SerializeAll(rest) + tail);
      FramesFirst(magic, rest, tail);
      PrecededTwice(if f.kind == PING then [Empty(magic, PONG)] else [],
        if f.kind == DATA then [Message(f.payload)] else [],
        Pongs(rest), Messages(rest), Run(End(Established, magic, tail)));
    }
  }

  // Frames, noise and frames: all messages are passed up, in order, every ping is answered,
  // and one ping is sent because of the noise.
  lemma FramesAfterNoise(magic: nat, before: seq<Frame>, noise: seq<byte>, frames: seq<Frame>)
    requires magic < Limit(8) && AllSent(magic, before) && AllSent(magic, frames)
    requires frames != [] && noise != [] && IsNoise(magic, noise, SerializeAll(frames))
    ensures Run(End(Established, magic, SerializeAll(before) + (noise + SerializeAll(frames))))
         == Reaction(End(Established, magic, []), Pongs(before) + [Empty(magic, PING)] + Pongs(frames),
              Messages(before) + Messages(frames), false)
  {
    hide Run, Limit, Parse, SerializeAll, IsNoise, BeginsWithMagic, Pongs, Messages;
    var later := SerializeAll(frames);
    SerializedBegins(magic, frames);
    FramesFirst(magic, before, noise + later);
    NoiseIsSkipped(magic, noise, later);
    ParseAfterSerialize(magic, frames);
    RunIsParse(End(Established, magic, later));
    PrecededTwice(Pongs(before), Messages(before), [Empty(magic, PING)], [], Run(End(Established, magic, later)));
    assert Messages(before) + [] == Messages(before);
  }

  // An end that has lost sync: one read in which the magic turns up again, and the next
  // read.  Together they pass up what stands in the stream from the magic on.
  lemma SyncIsFound(magic: nat, noise: seq<byte>, later: seq<byte>, chunk: seq<byte>)
    requires magic < Limit(8) && IsNoise(magic, noise, later) && BeginsWithMagic(magic, later)
    requires InSync(End(Established, magic, later + chunk))
    ensures var first := ReadDesynced(magic, noise + later);
            && first.after.state.Established? && first.after.magic == magic
            && var second := Read(first.after, chunk);
            && var p := Parse(magic, later + chunk);
            && second.after == End(Established, magic, p.rest)
            && first.sent + second.sent == Pongs(p.frames)
            && first.delivered + second.delivered == Messages(p.frames)
  {
    hide Limit, Parse, IsNoise, BeginsWithMagic, Pongs, Messages, Handle, LengthOf, KindOf, Run, FirstMatch;
    var e := End(Established, magic, later);
    NextMagic(magic, noise, later);
    ParseResumes(magic, later, chunk);
    if |later| >= HEADER_SIZE && |later| >= HEADER_SIZE + LengthOf(later) {
      HandleTakesFrame(e);
      var length := HEADER_SIZE + LengthOf(later);
      var f := Frame(magic, KindOf(later), later[HEADER_SIZE..length]);
      FrameThenRest(magic, later, chunk, f, length);
      var rest := later[length..];
      RunIsParse(End(Established, magic, rest + chunk));
      PongsFirst(f, Parse(magic, rest + chunk).frames);
      MessagesFirst(f, Parse(magic, rest + chunk).frames);
    } else {
      HandleWaits(e);
      RunIsParse(End(Established, magic, later + chunk));
    }
  }

  // A whole frame and the rest of the stream.
  lemma FrameThenRest(magic: nat, s: seq<byte>, t: seq<byte>, f: Frame, length: nat)
    requires |s| >= HEADER_SIZE && length == HEADER_SIZE + LengthOf(s) <= |s|
    requires f == Frame(magic, KindOf(s), s[HEADER_SIZE..length])
    requires Parse(magic, s).stop == Waiting && Parse(magic, s + t).stop == Waiting
    ensures var later := Parse(magic, s[length..] + t);
            Parse(magic, s + t) == later.(frames := [f] + later.frames)
  {
    hide KindOf, LengthOf, MagicOf;
    HeaderStays(s, t);
    assert (s + t)[length..] == s[length..] + t;
    assert (s + t)[HEADER_SIZE..length] == s[HEADER_SIZE..length];
  }
}
