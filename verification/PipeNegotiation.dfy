// Two ends of interface/PipeInterface.c joined by two pipes that carry whole frames
// in order: how they agree on a magic, over every run.

module PipeNegotiation {
  import opened Bytes
  import opened LittleEndian
  import opened Framing
  import opened PipeInterface

  datatype Party = Party(state: State, magic: nat, sent: seq<Upward>, got: seq<Upward>)

  // Both ends, the frames under way from a to b and those from b to a.
  datatype Net = Net(a: Party, b: Party, ab: seq<Frame>, ba: seq<Frame>)

  // Read the next frame, ping after a timeout, or send a message.
  datatype Event = Receive | Timeout | Send(payload: seq<byte>)
  datatype Move = Move(byA: bool, event: Event)

  // The handling of one whole frame: handleMessage seen from outside the buffer.
  function React(p: Party, f: Frame): (Party, seq<Frame>) {
    if f.magic != p.magic && !p.state.Initializing? then (p.(state := Lost), [Empty(p.magic, PING)])
    else
      var hello := if p.state.Initializing? && f.kind == PONG then [Empty(p.magic, PING)] else [];
      var greeted :=
        if f.magic == p.magic then p.(state := Established)
        else if f.magic < p.magic then p.(magic := f.magic)
        else p;
      (greeted.(got := p.got + if f.kind == DATA then [Message(f.payload)] else []),
       hello + if f.kind == PING then [Empty(greeted.magic, PONG)] else [])
  }

  function ByA(n: Net, event: Event): Net {
    match event
    case Receive =>
      if n.ba == [] then n
      else
        var (a, reply) := React(n.a, n.ba[0]);
        Net(a, n.b, n.ab + reply, n.ba[1..])
    case Timeout => n.(ab := n.ab + [Empty(n.a.magic, PING)])
    case Send(payload) =>
      if n.a.state.Initializing? then n
      else n.(a := n.a.(sent := n.a.sent + [Message(payload)]), ab := n.ab + [Frame(n.a.magic, DATA, payload)])
  }

  function Swap(n: Net): Net {
    Net(n.b, n.a, n.ba, n.ab)
  }

  function Apply(n: Net, move: Move): Net {
    if move.byA then ByA(n, move.event) else Swap(ByA(Swap(n), move.event))
  }

  // Both ends are created: each has sent a ping with a magic of its own.
  function Start(a0: nat, b0: nat): Net {
    Net(Party(Initializing, a0, [], []), Party(Initializing, b0, [], []), [Empty(a0, PING)], [Empty(b0, PING)])
  }

  function After(n: Net, moves: seq<Move>): Net {
    if moves == [] then n else Apply(After(n, moves[..|moves| - 1]), moves[|moves| - 1])
  }

  function Min(x: nat, y: nat): nat {
    if x < y then x else y
  }

  // -------------------------------------------------------------- the invariant

  // The frames of a sender that started with magic own: first those with its own
  // magic, then those with the agreed one; pongs come only after agreement.
  ghost predicate IsOrdered(frames: seq<Frame>, own: nat, agreed: nat) {
    && (forall f <- frames :: f.magic == own || f.magic == agreed)
    && (forall f <- frames :: f.kind == PONG ==> f.magic == agreed)
    && (forall i, j | 0 <= i < j < |frames| :: frames[i].magic == agreed ==> frames[j].magic == agreed)
  }

  ghost predicate AllWith(frames: seq<Frame>, magic: nat) {
    forall f <- frames :: f.magic == magic
  }

  ghost predicate Has(frames: seq<Frame>, kind: nat) {
    exists f <- frames :: f.kind == kind
  }

  // What holds of a and of the frames on their way to it.
  ghost predicate Half(n: Net, a0: nat, b0: nat) {
    var agreed := Min(a0, b0);
    && (n.a.magic == a0 || n.a.magic == agreed)
    && !n.a.state.Lost?
    && IsOrdered(n.ba, b0, agreed)
    && (n.b.magic != agreed ==> AllWith(n.ba, b0))
    && (n.a.state.Established? ==> n.a.magic == agreed && n.b.magic == agreed && AllWith(n.ba, agreed))
    && (n.a.state.Initializing? ==> Has(n.ab, PING) || Has(n.ba, PONG))
    && n.b.sent == n.a.got + Messages(n.ba)
  }

  ghost predicate Inv(n: Net, a0: nat, b0: nat) {
    Half(n, a0, b0) && Half(Swap(n), b0, a0)
  }

  lemma StartInv(a0: nat, b0: nat)
    ensures Inv(Start(a0, b0), a0, b0)
  {
    var n := Start(a0, b0);
    assert n.ab[0].kind == PING && n.ba[0].kind == PING;
  }

  lemma MessagesOfNext(frames: seq<Frame>)
    requires frames != []
    ensures Messages(frames)
            == (if frames[0].kind == DATA then [Message(frames[0].payload)] else []) + Messages(frames[1..])
  {}

  lemma TailIsOrdered(frames: seq<Frame>, own: nat, agreed: nat)
    requires frames != [] && IsOrdered(frames, own, agreed)
    ensures IsOrdered(frames[1..], own, agreed)
    ensures frames[0].magic == agreed ==> AllWith(frames[1..], agreed)
  {
    forall i, j | 0 <= i < j < |frames[1..]|
      ensures frames[1..][i].magic == agreed ==> frames[1..][j].magic == agreed
    {
      assert frames[1..][i] == frames[i + 1] && frames[1..][j] == frames[j + 1];
    }
    forall f <- frames[1..]
      ensures f in frames && (frames[0].magic == agreed ==> f.magic == agreed)
    {
      var i :| 0 <= i < |frames[1..]| && f == frames[1..][i];
      assert frames[i + 1] == f;
    }
  }

  // What a frame of an ordered stream does to its receiver.
  lemma ReactKeeps(p: Party, f: Frame, own: nat, other: nat)
    requires p.magic == own || p.magic == Min(own, other)
    requires f.magic == other || f.magic == Min(own, other)
    requires !p.state.Lost? && (p.state.Established? ==> f.magic == p.magic == Min(own, other))
    ensures var (q, reply) := React(p, f);
            && (q.magic == own || q.magic == Min(own, other)) && !q.state.Lost?
            && (q.state.Established? ==> q.magic == f.magic == Min(own, other))
            && (q.state.Initializing? ==> p.state.Initializing?)
            && (q.state.Initializing? && f.kind == PONG ==> reply != [] && reply[0].kind == PING)
            && q.got == p.got + if f.kind == DATA then [Message(f.payload)] else []
  {}

  lemma ReceiveIsReact(n: Net)
    requires n.ba != []
    ensures var (a, reply) := React(n.a, n.ba[0]);
            ByA(n, Receive) == Net(a, n.b, n.ab + reply, n.ba[1..])
  {
    hide React;
  }

  // A ping of an initializing end, or a pong for it, stays under way.
  lemma HelloStays(ab: seq<Frame>, reply: seq<Frame>, ba: seq<Frame>)
    requires ba != [] && (Has(ab, PING) || Has(ba, PONG))
    requires ba[0].kind == PONG ==> reply != [] && reply[0].kind == PING
    ensures Has(ab + reply, PING) || Has(ba[1..], PONG)
  {
    if Has(ab, PING) {
      var g :| g in ab && g.kind == PING;
      assert g in ab + reply;
    } else if ba[0].kind == PONG {
      assert (ab + reply)[|ab|].kind == PING;
    } else {
      var g :| g in ba && g.kind == PONG;
      assert g in ba[1..];
    }
  }

  // The receiver's side.
  lemma ReceiveKeepsHalf(n: Net, a0: nat, b0: nat)
    requires Inv(n, a0, b0) && n.ba != []
    ensures Half(ByA(n, Receive), a0, b0)
  {
    var f := n.ba[0];
    assert f in n.ba;
    hide React, ByA, Has, Messages;
    TailIsOrdered(n.ba, b0, Min(a0, b0));
    MessagesOfNext(n.ba);
    ReactKeeps(n.a, f, a0, b0);
    ReceiveIsReact(n);
    var (a, reply) := React(n.a, f);
    if a.state.Initializing? {
      HelloStays(n.ab, reply, n.ba);
    }
  }

  // What the receiver answers, and with which magic.
  lemma RepliesAreOrdered(p: Party, f: Frame, own: nat, other: nat)
    requires p.magic == own || p.magic == Min(own, other)
    requires f.magic == other || f.magic == Min(own, other)
    requires f.kind == PONG ==> f.magic == Min(own, other)
    requires !p.state.Established? || f.magic == p.magic == Min(own, other)
    requires !p.state.Lost?
    ensures var (q, reply) := React(p, f);
            && IsOrdered(reply, own, Min(own, other))
            && (q.magic != Min(own, other) ==> p.magic != Min(own, other) && AllWith(reply, own))
            && (p.magic == Min(own, other) ==> AllWith(reply, Min(own, other)))
            && (f.kind == PING ==> reply != [] && reply[|reply| - 1].kind == PONG)
            && Messages(reply) == [] && q.sent == p.sent
  {}

  // A ping for an end that answers, or a pong from it, stays under way.
  lemma AnswerStays(ab: seq<Frame>, reply: seq<Frame>, ba: seq<Frame>)
    requires ba != [] && (Has(ba, PING) || Has(ab, PONG))
    requires ba[0].kind == PING ==> reply != [] && reply[|reply| - 1].kind == PONG
    ensures Has(ba[1..], PING) || Has(ab + reply, PONG)
  {
    if Has(ab, PONG) {
      var g :| g in ab && g.kind == PONG;
      assert g in ab + reply;
    } else if ba[0].kind == PING {
      assert (ab + reply)[|ab + reply| - 1].kind == PONG;
    } else {
      var g :| g in ba && g.kind == PING;
      assert g in ba[1..];
    }
  }

  lemma AllOfBoth(frames: seq<Frame>, more: seq<Frame>, magic: nat)
    requires AllWith(frames, magic) && AllWith(more, magic)
    ensures AllWith(frames + more, magic)
  {}

  // The sender's side: what the receiver answers goes to the end of the other pipe.
  lemma ReceiveKeepsOther(n: Net, a0: nat, b0: nat)
    requires Inv(n, a0, b0) && n.ba != []
    ensures Half(Swap(ByA(n, Receive)), b0, a0)
  {
    var f, agreed := n.ba[0], Min(a0, b0);
    assert f in n.ba;
    MinIsSymmetric(a0, b0);
    var (a, reply) := React(n.a, f);
    assert n.a.state.Established? ==> f.magic == agreed;
    hide React, ByA, Has, Messages, IsOrdered, AllWith, Min;
    FirstIsOrdered(n.ba, b0, agreed);
    RepliesAreOrdered(n.a, f, a0, b0);
    ReceiveIsReact(n);
    AppendKeepsOrder(n.ab, reply, a0, agreed);
    MessagesOfBoth(n.ab, reply);
    if n.b.state.Initializing? {
      AnswerStays(n.ab, reply, n.ba);
    }
    if a.magic != agreed {
      AllOfBoth(n.ab, reply, a0);
    }
    if n.b.state.Established? {
      AllOfBoth(n.ab, reply, agreed);
    }
  }

  lemma FirstIsOrdered(frames: seq<Frame>, own: nat, agreed: nat)
    requires frames != [] && IsOrdered(frames, own, agreed)
    ensures frames[0].magic == own || frames[0].magic == agreed
    ensures frames[0].kind == PONG ==> frames[0].magic == agreed
  {
    assert frames[0] in frames;
  }

  lemma AppendKeepsOrder(frames: seq<Frame>, more: seq<Frame>, own: nat, agreed: nat)
    requires IsOrdered(frames, own, agreed) && IsOrdered(more, own, agreed)
    requires AllWith(frames, own) || AllWith(more, agreed)
    ensures IsOrdered(frames + more, own, agreed)
  {
    var all := frames + more;
    forall i, j | 0 <= i < j < |all| && all[i].magic == agreed
      ensures all[j].magic == agreed
    {
      if i < |frames| {
        assert all[i] in frames;
        if j >= |frames| && own != agreed {
          assert all[j] in more;
        }
      }
    }
  }

  // Writing one more frame with the writer's own magic.
  lemma HasStays(frames: seq<Frame>, f: Frame, kind: nat)
    requires Has(frames, kind)
    ensures Has(frames + [f], kind)
  {
    var g :| g in frames && g.kind == kind;
    assert g in frames + [f];
  }

  // Writing one more frame with the writer's own magic: the writer's side ...
  lemma WriteKeepsHalf(n: Net, f: Frame, a: Party, a0: nat, b0: nat)
    requires Inv(n, a0, b0)
    requires a == n.a.(sent := a.sent)
    ensures Half(n.(a := a, ab := n.ab + [f]), a0, b0)
  {
    if Has(n.ab, PING) {
      HasStays(n.ab, f, PING);
    }
  }

  // ... and the other one.
  lemma WriteKeepsOther(n: Net, f: Frame, a: Party, a0: nat, b0: nat)
    requires Inv(n, a0, b0) && f.magic == n.a.magic && f.kind != PONG
    requires a == n.a.(sent := n.a.sent + Messages([f]))
    ensures Half(Swap(n.(a := a, ab := n.ab + [f])), b0, a0)
  {
    hide Messages;
    MinIsSymmetric(a0, b0);
    AppendKeepsOrder(n.ab, [f], a0, Min(a0, b0));
    MessagesOfBoth(n.ab, [f]);
    if Has(n.ab, PONG) {
      HasStays(n.ab, f, PONG);
    }
  }

  lemma WriteKeepsInv(n: Net, f: Frame, a: Party, a0: nat, b0: nat)
    requires Inv(n, a0, b0) && f.magic == n.a.magic && f.kind != PONG
    requires a == n.a.(sent := n.a.sent + Messages([f]))
    ensures Inv(n.(a := a, ab := n.ab + [f]), a0, b0)
  {
    hide Half;
    WriteKeepsHalf(n, f, a, a0, b0);
    WriteKeepsOther(n, f, a, a0, b0);
  }

  lemma EventKeepsInv(n: Net, event: Event, a0: nat, b0: nat)
    requires Inv(n, a0, b0)
    ensures Inv(ByA(n, event), a0, b0)
  {
    match event
    case Receive =>
      if n.ba != [] {
        ReceiveKeepsHalf(n, a0, b0);
        ReceiveKeepsOther(n, a0, b0);
      }
    case Timeout =>
      assert n.a.sent + Messages([Empty(n.a.magic, PING)]) == n.a.sent;
      WriteKeepsInv(n, Empty(n.a.magic, PING), n.a, a0, b0);
    case Send(payload) =>
      if !n.a.state.Initializing? {
        var f := Frame(n.a.magic, DATA, payload);
        assert Messages([f]) == [Message(payload)];
        WriteKeepsInv(n, f, n.a.(sent := n.a.sent + [Message(payload)]), a0, b0);
      }
  }

  lemma MinIsSymmetric(a0: nat, b0: nat)
    ensures Min(a0, b0) == Min(b0, a0)
  {}

  lemma {:induction false} EveryRunKeepsInv(a0: nat, b0: nat, moves: seq<Move>)
    ensures Inv(After(Start(a0, b0), moves), a0, b0)
  {
    hide Half, ByA, Start;
    if moves == [] {
      StartInv(a0, b0);
    } else {
      var before, last := moves[..|moves| - 1], moves[|moves| - 1];
      EveryRunKeepsInv(a0, b0, before);
      var n := After(Start(a0, b0), before);
      if last.byA {
        EventKeepsInv(n, last.event, a0, b0);
      } else {
        EventKeepsInv(Swap(n), last.event, b0, a0);
      }
    }
  }

  // Over every interleaving of reads, pings and messages: no end ever loses sync; once
  // one end is established both hold the smaller of the two magics they started with;
  // when nothing is under way both are established; and every message written has been
  // passed up at the other end, or is still under way, in order.
  lemma EndsAgree(a0: nat, b0: nat, moves: seq<Move>)
    ensures var n := After(Start(a0, b0), moves);
            && !n.a.state.Lost? && !n.b.state.Lost?
            && (n.a.state.Established? || n.b.state.Established? ==> n.a.magic == n.b.magic == Min(a0, b0))
            && (n.ab == [] && n.ba == [] ==> n.a.state.Established? && n.b.state.Established?)
            && n.a.sent == n.b.got + Messages(n.ab) && n.b.sent == n.a.got + Messages(n.ba)
  {
    hide After, Start;
    EveryRunKeepsInv(a0, b0, moves);
    MinIsSymmetric(a0, b0);
  }

  // ------------------------------------------------------ the exchange comes to rest

  function Rank(p: Party, agreed: nat): nat {
    if !p.state.Initializing? then 0 else if p.magic == agreed then 1 else 2
  }

  function Weight(frames: seq<Frame>): nat {
    if frames == [] then 0 else (if frames[0].kind == PING then 2 else 1) + Weight(frames[1..])
  }

  // Twice what is missing to agreement, plus the frames under way, pings counted twice.
  function Measure(n: Net, agreed: nat): nat {
    2 * (Rank(n.a, agreed) + Rank(n.b, agreed)) + Weight(n.ab) + Weight(n.ba)
  }

  lemma {:induction false} WeightOfBoth(fs: seq<Frame>, gs: seq<Frame>)
    ensures Weight(fs + gs) == Weight(fs) + Weight(gs)
  {
    if fs == [] {
      assert fs + gs == gs;
    } else {
      assert (fs + gs)[1..] == fs[1..] + gs;
      WeightOfBoth(fs[1..], gs);
    }
  }

  lemma ReceiveLowersMeasure(n: Net, a0: nat, b0: nat)
    requires Inv(n, a0, b0) && n.ba != []
    ensures Measure(ByA(n, Receive), Min(a0, b0)) < Measure(n, Min(a0, b0))
  {
    var f := n.ba[0];
    var (a, reply) := React(n.a, f);
    assert f in n.ba;
    WeightOfBoth(n.ab, reply);
    WeightOfReply(n.a, f, a0, b0);
  }

  lemma WeightOfReply(p: Party, f: Frame, own: nat, other: nat)
    requires p.magic == own || p.magic == Min(own, other)
    requires f.magic == other || f.magic == Min(own, other)
    requires f.kind == PONG ==> f.magic == Min(own, other)
    requires !p.state.Established? || f.magic == p.magic == Min(own, other)
    requires !p.state.Lost?
    ensures var (q, reply) := React(p, f);
            var agreed := Min(own, other);
            2 * Rank(q, agreed) + Weight(reply) < 2 * Rank(p, agreed) + if f.kind == PING then 2 else 1
  {}

  // Every one of these moves reads a frame.
  predicate AllRead(n: Net, moves: seq<Move>) {
    moves == [] ||
    (var last := moves[|moves| - 1];
     var before := After(n, moves[..|moves| - 1]);
     last.event.Receive? && (if last.byA then before.ba else before.ab) != [] && AllRead(n, moves[..|moves| - 1]))
  }

  // When the ends only read, what is under way runs out after a bounded number of
  // frames, and then both ends are established (EndsAgree).
  lemma {:induction false} ReadingComesToRest(a0: nat, b0: nat, past: seq<Move>, moves: seq<Move>)
    requires AllRead(After(Start(a0, b0), past), moves)
    ensures var n := After(Start(a0, b0), past);
            |moves| + Measure(After(n, moves), Min(a0, b0)) <= Measure(n, Min(a0, b0))
  {
    hide ByA, Half, Measure, Start;
    var n := After(Start(a0, b0), past);
    if moves != [] {
      var before, last := moves[..|moves| - 1], moves[|moves| - 1];
      ReadingComesToRest(a0, b0, past, before);
      var m := After(n, before);
      AfterBoth(Start(a0, b0), past, before);
      EveryRunKeepsInv(a0, b0, past + before);
      MinIsSymmetric(a0, b0);
      MeasureIsSymmetric(m, Min(a0, b0));
      if last.byA {
        ReceiveLowersMeasure(m, a0, b0);
      } else {
        ReceiveLowersMeasure(Swap(m), b0, a0);
        MeasureIsSymmetric(ByA(Swap(m), Receive), Min(a0, b0));
      }
    }
  }

  lemma MeasureIsSymmetric(n: Net, agreed: nat)
    ensures Measure(Swap(n), agreed) == Measure(n, agreed)
  {}

  lemma {:induction false} AfterBoth(n: Net, first: seq<Move>, second: seq<Move>)
    ensures After(n, first + second) == After(After(n, first), second)
  {
    hide Apply;
    if second == [] {
      assert first + second == first;
    } else {
      assert (first + second)[..|first + second| - 1] == first + second[..|second| - 1];
      AfterBoth(n, first, second[..|second| - 1]);
    }
  }

  // ------------------------------------------------ reads of whole frames are receives

  // A whole frame at the start of the buffer is handled as React says.
  lemma HandleIsReact(p: Party, f: Frame, t: seq<byte>)
    requires IsFrame(f) && p.magic < Limit(8) && !p.state.Lost?
    requires p.state.Established? ==> f.magic == p.magic
    ensures var (q, reply) := React(p, f);
            && Handle(End(p.state, p.magic, Serialize(f) + t)) ==
                 Reaction(End(q.state, q.magic, t), reply, Messages([f]), t != [])
            && q.magic < Limit(8)
    ensures !IsStuck(End(p.state, p.magic, Serialize(f) + t))
  {
    hide Serialize, Encode, Decode, Limit, FrameLength, MagicOf, KindOf, LengthOf;
    HeaderOf(f, t);
    FourBytes(|f.payload|);
    ShortFrame(Serialize(f) + t);
  }

  function Receives(n: Net, k: nat): Net
    requires k <= |n.ba|
    decreases k
  {
    if k == 0 then n else Receives(ByA(n, Receive), k - 1)
  }

  // The end a as it finds the bytes of its next k frames in its buffer.
  function Buffered(n: Net, k: nat): End
    requires k <= |n.ba|
  {
    End(n.a.state, n.a.magic, SerializeAll(n.ba[..k]))
  }

  lemma ReceiveIsHandle(n: Net, a0: nat, b0: nat, k: nat)
    requires Inv(n, a0, b0) && 0 < k <= |n.ba|
    requires n.a.magic < Limit(8) && IsFrame(n.ba[0])
    ensures var next := ByA(n, Receive);
            && Inv(next, a0, b0) && next.a.magic < Limit(8)
            && !n.a.state.Lost? && n.ab <= next.ab
            && Handle(Buffered(n, k)) ==
                 Reaction(Buffered(next, k - 1), next.ab[|n.ab|..], Messages([n.ba[0]]), k > 1)
    ensures !IsStuck(Buffered(n, k))
  {
    hide IsStuck, Handle, React, Half, IsFrame, Limit, SerializeAll;
    var f, next := n.ba[0], ByA(n, Receive);
    FrameIsInSync(n, a0, b0);
    EventKeepsInv(n, Receive, a0, b0);
    assert n.ba[..k] == [f] + next.ba[..k - 1];
    SerializeFirst(f, next.ba[..k - 1]);
    HandleIsReact(n.a, f, SerializeAll(next.ba[..k - 1]));
    NoBytesNoFrames(next.ba[..k - 1]);
  }

  // Reading any number of whole frames at once, as getMessage does on the bytes, is
  // receiving them one after the other.
  lemma {:induction false} ReadIsReceives(n: Net, a0: nat, b0: nat, k: nat)
    requires Inv(n, a0, b0) && k <= |n.ba|
    requires n.a.magic < Limit(8) && !n.a.state.Lost? && forall f <- n.ba :: IsFrame(f)
    ensures var m := Receives(n, k);
            && Inv(m, a0, b0) && n.ab <= m.ab
            && Run(Buffered(n, k)) ==
                 Reaction(End(m.a.state, m.a.magic, []), m.ab[|n.ab|..], Messages(n.ba[..k]), false)
    decreases k
  {
    hide Handle, IsStuck, React, Half, IsFrame, Limit, SerializeAll, Inv;
    NothingIsSerialized();
    if k == 0 {
      NothingToHandle(n.a.state, n.a.magic);
      assert n.ba[..0] == [];
    } else {
      var next := ByA(n, Receive);
      ReceiveIsHandle(n, a0, b0, k);
      assert next.ba == n.ba[1..] && n.ba[..k] == [n.ba[0]] + next.ba[..k - 1];
      MessagesOfBoth([n.ba[0]], next.ba[..k - 1]);
      if k == 1 {
        assert next.ba[..0] == [];
      } else {
        NotLost(next, a0, b0);
        ReadIsReceives(next, a0, b0, k - 1);
        var m := Receives(next, k - 1);
        assert m.ab[|n.ab|..] == next.ab[|n.ab|..] + m.ab[|next.ab|..];
      }
    }
  }

  lemma NotLost(n: Net, a0: nat, b0: nat)
    requires Inv(n, a0, b0)
    ensures !n.a.state.Lost?
  {}

  lemma FrameIsInSync(n: Net, a0: nat, b0: nat)
    requires Inv(n, a0, b0) && n.ba != []
    ensures n.a.state.Established? ==> n.ba[0].magic == n.a.magic
    ensures !n.a.state.Lost?
  {
    assert n.ba[0] in n.ba;
  }

  lemma NothingToHandle(state: State, magic: nat)
    requires magic < Limit(8) && !state.Lost?
    ensures Handle(End(state, magic, [])) == Reaction(End(state, magic, []), [], [], false)
    ensures !IsStuck(End(state, magic, []))
  {}

  lemma NoBytesNoFrames(frames: seq<Frame>)
    ensures SerializeAll(frames) == [] <==> frames == []
  {
    if frames != [] {
      assert |Serialize(frames[0])| > 0;
    }
  }
}
