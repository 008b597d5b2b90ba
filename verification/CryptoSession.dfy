// The session states of crypto/CryptoAuth.c with the cryptography left open: whether
// a packet decrypts is part of the packet.  Every function is one of the original's
// handlers, as a change of the session and of what it has done so far.

module CryptoSession {
  import opened Bytes
  import opened ReplayProtector

  type Message = seq<byte>

  const NO_KEY: nat := 0
  const NO_USER: nat := 0
  const CONNECT_TO_ME: nat := 0xFFFF_FFFF
  const HEADER_SIZE: nat := 120

  // Things that are seen from outside, and the points at which nonces or the replay
  // window start anew.
  datatype Entry =
    | Lowered
    | WindowCleared
    | Accepted(user: nat)
    | SentReverse
    | SentHandshake(state: nat, message: Message)
    | SentData(nonce: nat, message: Message)
    | DeliveredHandshake(message: Message)
    | DeliveredData(nonce: nat, checked: bool, message: Message)

  datatype Session = Session(
    nextNonce: nat,
    herKey: nat,
    user: nat,
    isInitiator: bool,
    authenticatePackets: bool,
    requireAuth: bool,
    hasBuffered: bool,
    buffered: Message,
    window: Window,
    timeOfLastPacket: nat,
    resetAfter: nat,
    log: seq<Entry>)

  // The authentication header of a handshake: its type, the user whose password it
  // names if there is one, how often the password is hashed, and the flag that asks
  // for authenticated packets.
  datatype Auth = Auth(authType: nat, known: bool, knownUser: nat, derivations: nat, wantsAuthentication: bool)

  // A packet as it comes in.  opens is whether its authenticated decryption succeeds,
  // content what is inside.
  datatype Packet = Packet(nonce: nat, length: nat, auth: Auth, publicKey: nat, opens: bool, content: Message)

  datatype Result = Fine | Undersize | Authentication | Undeliverable

  function Say(s: Session, e: Entry): Session {
    s.(log := s.log + [e])
  }

  function Fresh(herKey: nat, requireAuth: bool, authenticatePackets: bool, resetAfter: nat, now: nat): Session {
    Session(0, herKey, NO_USER, false, authenticatePackets, requireAuth, false, [], CLEAR, now, resetAfter, [])
  }

  function Reset(s: Session): Session {
    s.(nextNonce := 0, isInitiator := false, window := CLEAR, log := s.log + [Lowered, WindowCleared])
  }

  // Unsigned 64-bit difference of times.
  function Elapsed(now: nat, before: nat): int {
    if now >= before then now - before else now - before + 0x1_0000_0000_0000_0000
  }

  function CheckTimeout(s: Session, now: nat): Session {
    if Elapsed(now, s.timeOfLastPacket) > s.resetAfter then Reset(s.(timeOfLastPacket := now)) else s
  }

  function GenReverseHandshake(s: Session, message: Message): Session {
    s.(nextNonce := 0, hasBuffered := true, buffered := message, log := s.log + [Lowered, SentReverse])
  }

  function EncryptHandshake(s: Session, message: Message): Session {
    if s.herKey == NO_KEY then GenReverseHandshake(s, message)
    else
      var sent := Say(s, SentHandshake(s.nextNonce, message));
      if s.nextNonce < 2 then sent.(isInitiator := true, nextNonce := 1) else sent.(nextNonce := 3)
  }

  function EncryptMessage(s: Session, message: Message): Session {
    Say(s, SentData(s.nextNonce, message)).(nextNonce := s.nextNonce + 1)
  }

  function Send(s: Session, message: Message, now: nat): Session {
    var checked := CheckTimeout(s, now);
    if checked.nextNonce < 4 then EncryptHandshake(checked, message) else EncryptMessage(checked, message)
  }

  function CallReceived(s: Session, e: Entry, now: nat): Session {
    Say(if s.authenticatePackets then s.(timeOfLastPacket := now) else s, e)
  }

  // Without authentication every packet decrypts to something.
  function DecryptMessage(s: Session, p: Packet): (bool, Session) {
    if !s.authenticatePackets then (true, s)
    else if !p.opens then (false, s)
    else var (ok, window) := Check(s.window, p.nonce); (ok, s.(window := window))
  }

  // Whether a password is named, which user it stands for, and the session, which an
  // unrecognized header can switch to authenticated packets.
  function TryAuth(s: Session, auth: Auth): (bool, nat, Session) {
    if auth.authType == 1 && auth.known then (true, if auth.derivations == 0 then auth.knownUser else NO_USER, s)
    else (false, NO_USER, s.(authenticatePackets := s.authenticatePackets || auth.wantsAuthentication))
  }

  function ConnectToMe(s: Session, p: Packet): Session {
    var known := if s.herKey == NO_KEY then s.(herKey := p.publicKey) else s;
    EncryptHandshake(known.(nextNonce := 0, user := NO_USER, log := s.log + [Lowered]), [])
  }

  // A handshake that decrypted: the session moves to state 2 or 4 ...
  function Settle(s: Session, p: Packet, user: nat): Session {
    s.(user := user,
      nextNonce := if p.nonce < 2 then 2 else 4,
      isInitiator := s.isInitiator && p.nonce >= 2,
      herKey := p.publicKey,
      log := s.log + [Lowered, Accepted(user)])
  }

  // ... and sends the message that waited for it, or passes its content up.
  function Accept(s: Session, p: Packet, user: nat, now: nat): Session {
    var settled := Settle(s, p, user);
    if s.hasBuffered && p.content == [] then Send(settled, s.buffered, now).(hasBuffered := false)
    else CallReceived(Say(settled.(window := CLEAR), WindowCleared), DeliveredHandshake(p.content), now)
  }

  function DecryptHandshake(s: Session, p: Packet, now: nat): (Result, Session) {
    if p.length < HEADER_SIZE then (Undersize, s)
    else if s.nextNonce < 2 && p.nonce == CONNECT_TO_ME && !s.requireAuth then (Fine, ConnectToMe(s, p))
    else
      var (named, user, tried) := TryAuth(s, p.auth);
      if s.requireAuth && user == NO_USER then (Authentication, tried)
      else if !named && p.auth.authType != 0 then (Authentication, tried)
      else if !(p.nonce < 2 && (s.herKey == NO_KEY || s.nextNonce == 0))
          && p.publicKey != s.herKey
      then (Authentication, tried)
      else if !p.opens then (Authentication, tried)
      else (Fine, Accept(tried, p, user, now))
  }

  function Receive(s: Session, p: Packet, now: nat): (Result, Session) {
    if p.length < (if s.authenticatePackets then 20 else 4) then (Undersize, s)
    else if s.nextNonce < 5 && p.nonce > 3 && p.nonce != CONNECT_TO_ME && s.herKey != NO_KEY then
      var (ok, after) := DecryptMessage(s.(nextNonce := s.nextNonce + 3), p);
      if ok then (Fine, CallReceived(after, DeliveredData(p.nonce, s.authenticatePackets, p.content), now))
      else (Undeliverable, Reset(after))
    else if s.nextNonce >= 5 && p.nonce > 4 then
      var (ok, after) := DecryptMessage(s, p);
      if ok then (Fine, CallReceived(after, DeliveredData(p.nonce, s.authenticatePackets, p.content), now))
      else (Undeliverable, after)
    else DecryptHandshake(s, p, now)
  }

  // Whose key the session holds: it changes only when a hello is accepted in state 0 or
  // while no key is known, or when an unknown peer asks to be connected to.
  lemma KeyIsPinned(s: Session, p: Packet, now: nat)
    ensures Receive(s, p, now).1.herKey != s.herKey ==> MayLearnKey(s, p) && Receive(s, p, now).1.herKey == p.publicKey
  {
    hide DecryptMessage, DecryptHandshake, CallReceived, Reset, MayLearnKey;
    DataKeepsKey(s, p, DeliveredData(p.nonce, s.authenticatePackets, p.content), now);
    DataKeepsKey(s.(nextNonce := s.nextNonce + 3), p, DeliveredData(p.nonce, s.authenticatePackets, p.content), now);
    HandshakePinsKey(s, p, now);
  }

  predicate MayLearnKey(s: Session, p: Packet) {
    || (p.nonce < 2 && (s.herKey == NO_KEY || s.nextNonce == 0) && p.opens)
    || (p.nonce == CONNECT_TO_ME && s.herKey == NO_KEY && s.nextNonce < 2 && !s.requireAuth)
  }

  lemma DataKeepsKey(s: Session, p: Packet, e: Entry, now: nat)
    ensures var (ok, after) := DecryptMessage(s, p);
            CallReceived(after, e, now).herKey == Reset(after).herKey == after.herKey == s.herKey
  {
    hide Check;
  }

  lemma HandshakePinsKey(s: Session, p: Packet, now: nat)
    ensures var t := DecryptHandshake(s, p, now).1;
            t.herKey != s.herKey ==> MayLearnKey(s, p) && t.herKey == p.publicKey
  {
    hide Accept, ConnectToMe;
    var (named, user, tried) := TryAuth(s, p.auth);
    AcceptedKey(tried, p, user, now);
    ConnectedKey(s, p);
  }

  lemma AcceptedKey(s: Session, p: Packet, user: nat, now: nat)
    ensures Accept(s, p, user, now).herKey == p.publicKey
  {}

  lemma ConnectedKey(s: Session, p: Packet)
    ensures ConnectToMe(s, p).herKey == if s.herKey == NO_KEY then p.publicKey else s.herKey
  {}

  // ---------------------------------------------------------------------- whole runs

  datatype Event =
    | Sending(message: Message, sentAt: nat)
    | Receiving(p: Packet, receivedAt: nat)
    | Resetting
    | Polling(polledAt: nat)

  function Step(s: Session, e: Event): Session {
    match e
    case Sending(message, now) => Send(s, message, now)
    case Receiving(p, now) => Receive(s, p, now).1
    case Resetting => Reset(s)
    case Polling(now) => CheckTimeout(s, now)
  }

  function Run(s: Session, events: seq<Event>): Session {
    if events == [] then s else Step(Run(s, events[..|events| - 1]), events[|events| - 1])
  }

  // The nonces of the data packets sent since the state was last lowered.
  function Outgoing(log: seq<Entry>): seq<nat> {
    if log == [] then []
    else
      var before, last := log[..|log| - 1], log[|log| - 1];
      if last.Lowered? then [] else if last.SentData? then Outgoing(before) + [last.nonce] else Outgoing(before)
  }

  // The nonces of the data delivered since the window was last cleared, leaving out
  // what was delivered without authentication.
  function Incoming(log: seq<Entry>): seq<nat> {
    if log == [] then []
    else
      var before, last := log[..|log| - 1], log[|log| - 1];
      if last.WindowCleared? then []
      else if last.DeliveredData? && last.checked then Incoming(before) + [last.nonce]
      else Incoming(before)
  }

  // The states in which handshake packets were sent since the state was last lowered.
  function Handshakes(log: seq<Entry>): seq<nat> {
    if log == [] then []
    else
      var before, last := log[..|log| - 1], log[|log| - 1];
      if last.Lowered? then []
      else if last.SentHandshake? then Handshakes(before) + [last.state]
      else Handshakes(before)
  }

  // A hello is followed by repeated hellos or repeated keys, a key by repeated keys: the
  // states 0 and 2, in which a new temporary key is made, come once and first.
  ghost predicate IsOrderly(states: seq<nat>) {
    forall i | 0 <= i < |states| :: IsInOrder(states, i)
  }

  ghost predicate IsInOrder(states: seq<nat>, i: nat)
    requires i < |states|
  {
    if i == 0 then states[i] == 0 || states[i] == 2 || states[i] == 3
    else states[i] == 3 || (states[i] == 1 && states[i - 1] <= 1)
  }

  ghost predicate RisesByOne(nonces: seq<nat>) {
    forall i | 0 <= i < |nonces| :: nonces[i] == nonces[0] + i && nonces[i] >= 4
  }

  ghost predicate NoneTwice(nonces: seq<nat>) {
    forall i, j | 0 <= i < j < |nonces| :: nonces[i] != nonces[j]
  }

  // At every moment up to now.
  ghost predicate AlwaysDisciplined(log: seq<Entry>) {
    forall k | 0 <= k <= |log| ::
      RisesByOne(Outgoing(log[..k])) && NoneTwice(Incoming(log[..k])) && IsOrderly(Handshakes(log[..k]))
  }

  ghost predicate Disciplined(s: Session) {
    && AlwaysDisciplined(s.log)
    && (Outgoing(s.log) != [] ==> s.nextNonce == Outgoing(s.log)[|Outgoing(s.log)| - 1] + 1)
    && Represents(s.window, Seen(s.log))
    && FollowsHandshakes(s.nextNonce, Handshakes(s.log))
  }

  // What the next nonce tells of the handshake packets that were sent.
  ghost predicate FollowsHandshakes(nextNonce: nat, states: seq<nat>) {
    if states == [] then nextNonce != 1
    else nextNonce != 0 && nextNonce != 2 && (states[|states| - 1] >= 2 ==> nextNonce >= 3)
  }

  ghost function Seen(log: seq<Entry>): set<nat> {
    set n | n in Incoming(log)
  }

  lemma Latest(log: seq<Entry>, e: Entry)
    ensures Outgoing(log + [e]) ==
      if e.Lowered? then [] else if e.SentData? then Outgoing(log) + [e.nonce] else Outgoing(log)
    ensures Incoming(log + [e]) ==
      if e.WindowCleared? then []
      else if e.DeliveredData? && e.checked then Incoming(log) + [e.nonce] else Incoming(log)
    ensures Handshakes(log + [e]) ==
      if e.Lowered? then [] else if e.SentHandshake? then Handshakes(log) + [e.state] else Handshakes(log)
  {
    assert (log + [e])[..|log + [e]| - 1] == log;
  }

  lemma AlwaysAndNow(log: seq<Entry>, e: Entry)
    requires AlwaysDisciplined(log)
    requires RisesByOne(Outgoing(log + [e])) && NoneTwice(Incoming(log + [e])) && IsOrderly(Handshakes(log + [e]))
    ensures AlwaysDisciplined(log + [e])
  {
    var more := log + [e];
    forall k | 0 <= k <= |more|
      ensures RisesByOne(Outgoing(more[..k])) && NoneTwice(Incoming(more[..k])) && IsOrderly(Handshakes(more[..k]))
    {
      if k <= |log| {
        assert more[..k] == log[..k];
      } else {
        assert more[..k] == more;
      }
    }
  }

  lemma NowDisciplined(s: Session)
    requires Disciplined(s)
    ensures RisesByOne(Outgoing(s.log)) && NoneTwice(Incoming(s.log)) && IsOrderly(Handshakes(s.log))
    ensures s.nextNonce < 5 ==> Outgoing(s.log) == []
  {
    assert s.log[..|s.log|] == s.log;
  }

  // The next nonce may be advanced by 3 while no data was sent, and other fields be
  // changed always.
  lemma ChangeKeeps(s: Session, t: Session)
    requires Disciplined(s) && t.log == s.log && t.window == s.window
    requires t.nextNonce == s.nextNonce || (s.nextNonce < 5 && t.nextNonce == s.nextNonce + 3)
    ensures Disciplined(t)
  {
    NowDisciplined(s);
  }

  // The next nonce after something that does not lower the state.
  function Advanced(nextNonce: nat, e: Entry): nat {
    if e.SentData? then nextNonce + 1
    else if e.SentHandshake? then (if nextNonce < 2 then 1 else 3)
    else nextNonce
  }

  lemma OutgoingGoOn(log: seq<Entry>, e: Entry, nextNonce: nat)
    requires RisesByOne(Outgoing(log)) && (e.SentData? ==> e.nonce == nextNonce >= 4)
    requires Outgoing(log) != [] ==> nextNonce == Outgoing(log)[|Outgoing(log)| - 1] + 1
    requires e.SentHandshake? ==> nextNonce < 4
    ensures RisesByOne(Outgoing(log + [e]))
    ensures Outgoing(log + [e]) != [] ==> Advanced(nextNonce, e) == Outgoing(log + [e])[|Outgoing(log + [e])| - 1] + 1
  {
    Latest(log, e);
  }

  lemma HandshakesGoOn(log: seq<Entry>, e: Entry, nextNonce: nat)
    requires IsOrderly(Handshakes(log)) && FollowsHandshakes(nextNonce, Handshakes(log))
    requires (e.SentHandshake? ==> e.state == nextNonce < 4) && (e.SentData? ==> nextNonce >= 4)
    ensures IsOrderly(Handshakes(log + [e]))
    ensures !e.Lowered? ==> FollowsHandshakes(Advanced(nextNonce, e), Handshakes(log + [e]))
    ensures e.Lowered? ==> Handshakes(log + [e]) == []
  {
    Latest(log, e);
    if e.SentHandshake? {
      OneMoreHandshake(Handshakes(log), nextNonce);
    }
  }

  lemma OneMoreHandshake(states: seq<nat>, state: nat)
    requires IsOrderly(states) && FollowsHandshakes(state, states) && state <= 3
    ensures IsOrderly(states + [state])
  {
    var more := states + [state];
    forall i | 0 <= i < |more|
      ensures IsInOrder(more, i)
    {
      if i < |states| {
        assert IsInOrder(states, i);
      }
    }
  }

  // What may be done next without breaking the discipline.
  lemma EntryKeeps(s: Session, e: Entry, t: Session)
    requires Disciplined(s) && t.log == s.log + [e]
    requires if e.Lowered? then t.nextNonce != 1 else t.nextNonce == Advanced(s.nextNonce, e)
    requires e.SentData? ==> e.nonce == s.nextNonce >= 4
    requires e.SentHandshake? ==> e.state == s.nextNonce < 4
    requires !e.DeliveredData? || !e.checked ==> t.window == if e.WindowCleared? then CLEAR else s.window
    requires e.DeliveredData? && e.checked ==> Check(s.window, e.nonce) == (true, t.window)
    ensures Disciplined(t)
  {
    NowDisciplined(s);
    Latest(s.log, e);
    OutgoingGoOn(s.log, e, s.nextNonce);
    HandshakesGoOn(s.log, e, s.nextNonce);
    IncomingGoOn(s.log, e, s.window, t.window);
    hide Check, Represents, CLEAR, RisesByOne, NoneTwice, IsOrderly, Outgoing, Incoming, Handshakes, Seen,
      AlwaysDisciplined;
    AlwaysAndNow(s.log, e);
  }

  lemma IncomingGoOn(log: seq<Entry>, e: Entry, before: Window, after: Window)
    requires NoneTwice(Incoming(log)) && Represents(before, Seen(log))
    requires !e.DeliveredData? || !e.checked ==> after == if e.WindowCleared? then CLEAR else before
    requires e.DeliveredData? && e.checked ==> Check(before, e.nonce) == (true, after)
    ensures NoneTwice(Incoming(log + [e])) && Represents(after, Seen(log + [e]))
  {
    hide Check, Represents, CLEAR;
    Latest(log, e);
    if e.DeliveredData? && e.checked {
      CheckMeans(before, Seen(log), e.nonce);
      assert Seen(log + [e]) == Seen(log) + {e.nonce};
      NewIsNotTwice(Incoming(log), e.nonce);
    } else if e.WindowCleared? {
      ClearIsEmpty();
      assert Seen(log + [e]) == {};
    }
  }

  lemma NewIsNotTwice(nonces: seq<nat>, nonce: nat)
    requires NoneTwice(nonces) && nonce !in nonces
    ensures NoneTwice(nonces + [nonce])
  {}

  lemma ResetKeeps(s: Session)
    requires Disciplined(s)
    ensures Disciplined(Reset(s))
  {
    hide Disciplined;
    var lowered := Say(s, Lowered).(nextNonce := 0, isInitiator := false);
    EntryKeeps(s, Lowered, lowered);
    EntryKeeps(lowered, WindowCleared, Reset(s));
    assert s.log + [Lowered] + [WindowCleared] == s.log + [Lowered, WindowCleared];
  }

  lemma TimeoutKeeps(s: Session, now: nat)
    requires Disciplined(s)
    ensures Disciplined(CheckTimeout(s, now))
  {
    hide Disciplined;
    var t := s.(timeOfLastPacket := now);
    ChangeKeeps(s, t);
    ResetKeeps(t);
  }

  lemma HandshakeKeeps(s: Session, message: Message)
    requires Disciplined(s) && s.nextNonce < 4
    ensures Disciplined(EncryptHandshake(s, message))
  {
    hide Disciplined;
    if s.herKey == NO_KEY {
      var lowered := Say(s, Lowered).(nextNonce := 0);
      EntryKeeps(s, Lowered, lowered);
      EntryKeeps(lowered, SentReverse, GenReverseHandshake(s, message));
      assert s.log + [Lowered] + [SentReverse] == s.log + [Lowered, SentReverse];
    } else {
      EntryKeeps(s, SentHandshake(s.nextNonce, message), EncryptHandshake(s, message));
    }
  }

  lemma SendKeeps(s: Session, message: Message, now: nat)
    requires Disciplined(s)
    ensures Disciplined(Send(s, message, now))
  {
    hide Disciplined;
    TimeoutKeeps(s, now);
    var checked := CheckTimeout(s, now);
    if checked.nextNonce < 4 {
      HandshakeKeeps(checked, message);
    } else {
      EntryKeeps(checked, SentData(checked.nextNonce, message), Send(s, message, now));
    }
  }

  lemma DataKeeps(s: Session, p: Packet, now: nat)
    requires Disciplined(s)
    ensures var (ok, after) := DecryptMessage(s, p);
            && (ok ==> Disciplined(CallReceived(after, DeliveredData(p.nonce, s.authenticatePackets, p.content), now)))
            && (!ok ==> after.log == s.log && after.nextNonce == s.nextNonce && after.window == s.window)
  {
    hide Disciplined;
    var (ok, after) := DecryptMessage(s, p);
    var e := DeliveredData(p.nonce, s.authenticatePackets, p.content);
    if ok {
      EntryKeeps(s, e, CallReceived(after, e, now));
    }
  }

  lemma SettleKeeps(s: Session, p: Packet, user: nat)
    requires Disciplined(s)
    ensures Disciplined(Settle(s, p, user))
  {
    hide Disciplined;
    var settled := Settle(s, p, user);
    var lowered := Say(s, Lowered).(nextNonce := settled.nextNonce);
    EntryKeeps(s, Lowered, lowered);
    assert s.log + [Lowered] + [Accepted(user)] == s.log + [Lowered, Accepted(user)];
    EntryKeeps(lowered, Accepted(user), settled);
  }

  lemma AcceptKeeps(s: Session, p: Packet, user: nat, now: nat)
    requires Disciplined(s)
    ensures Disciplined(Accept(s, p, user, now))
  {
    hide Disciplined;
    var settled := Settle(s, p, user);
    SettleKeeps(s, p, user);
    if s.hasBuffered && p.content == [] {
      SendKeeps(settled, s.buffered, now);
      ChangeKeeps(Send(settled, s.buffered, now), Accept(s, p, user, now));
    } else {
      var cleared := Say(settled.(window := CLEAR), WindowCleared);
      EntryKeeps(settled, WindowCleared, cleared);
      EntryKeeps(cleared, DeliveredHandshake(p.content), CallReceived(cleared, DeliveredHandshake(p.content), now));
    }
  }

  lemma ConnectKeeps(s: Session, p: Packet)
    requires Disciplined(s)
    ensures Disciplined(ConnectToMe(s, p))
  {
    hide Disciplined;
    var known := if s.herKey == NO_KEY then s.(herKey := p.publicKey) else s;
    var lowered := known.(nextNonce := 0, user := NO_USER, log := s.log + [Lowered]);
    EntryKeeps(s, Lowered, lowered);
    HandshakeKeeps(lowered, []);
  }

  lemma ReceiveKeeps(s: Session, p: Packet, now: nat)
    requires Disciplined(s)
    ensures Disciplined(Receive(s, p, now).1)
  {
    hide Disciplined, Accept, ConnectToMe, DecryptMessage;
    if p.length < (if s.authenticatePackets then 20 else 4) {
    } else if s.nextNonce < 5 && p.nonce > 3 && p.nonce != CONNECT_TO_ME && s.herKey != NO_KEY {
      var raised := s.(nextNonce := s.nextNonce + 3);
      ChangeKeeps(s, raised);
      DataKeeps(raised, p, now);
      var (ok, after) := DecryptMessage(raised, p);
      if !ok {
        ChangeKeeps(raised, after);
        ResetKeeps(after);
      }
    } else if s.nextNonce >= 5 && p.nonce > 4 {
      DataKeeps(s, p, now);
      var (ok, after) := DecryptMessage(s, p);
      if !ok {
        ChangeKeeps(s, after);
      }
    } else {
      ConnectKeeps(s, p);
      var (named, user, tried) := TryAuth(s, p.auth);
      ChangeKeeps(s, tried);
      AcceptKeeps(tried, p, user, now);
    }
  }

  // Over every run: between any two points at which the state is lowered, the data
  // packets sent carry nonces that start at 4 or more and rise by exactly one, and
  // handshake packets go out in order; and between any two clears of the replay window,
  // no nonce is delivered twice.
  lemma {:induction false} NoncesAreDisciplined(herKey: nat, requireAuth: bool,
      authenticatePackets: bool, resetAfter: nat, now: nat, events: seq<Event>)
    ensures var s := Run(Fresh(herKey, requireAuth, authenticatePackets, resetAfter, now), events);
            Disciplined(s) && AlwaysDisciplined(s.log)
  {
    hide Send, Receive, Reset, CheckTimeout, AlwaysDisciplined;
    var start := Fresh(herKey, requireAuth, authenticatePackets, resetAfter, now);
    if events == [] {
      FreshIsDisciplined(start);
    } else {
      NoncesAreDisciplined(herKey, requireAuth, authenticatePackets, resetAfter, now, events[..|events| - 1]);
      var s := Run(start, events[..|events| - 1]);
      match events[|events| - 1]
      case Sending(message, sentAt) => SendKeeps(s, message, sentAt);
      case Receiving(p, receivedAt) => ReceiveKeeps(s, p, receivedAt);
      case Resetting => ResetKeeps(s);
      case Polling(polledAt) => TimeoutKeeps(s, polledAt);
    }
  }

  lemma FreshIsDisciplined(s: Session)
    requires s.log == [] && s.window == CLEAR && s.nextNonce == 0
    ensures Disciplined(s)
  {
    ClearIsEmpty();
    assert Seen(s.log) == {};
  }

  // What is sent next once a handshake was accepted, unless the session has been idle
  // for too long: a key in answer to a hello, data under nonce 4 in answer to a key.
  lemma AnswerToHandshake(s: Session, p: Packet, user: nat, now: nat, message: Message, later: nat)
    requires p.publicKey != NO_KEY && !(s.hasBuffered && p.content == [])
    ensures var t := Accept(s, p, user, now);
            Elapsed(later, t.timeOfLastPacket) <= t.resetAfter ==>
              Send(t, message, later).log ==
                t.log + [if p.nonce < 2 then SentHandshake(2, message) else SentData(4, message)]
  {}

  // A message that waits for a handshake goes out as the answer to it.
  lemma BufferedIsAnswer(s: Session, p: Packet, user: nat, now: nat)
    requires p.publicKey != NO_KEY && s.hasBuffered && p.content == []
    requires Elapsed(now, s.timeOfLastPacket) <= s.resetAfter
    ensures var t := Accept(s, p, user, now);
            && !t.hasBuffered
            && t.log == s.log + [Lowered, Accepted(user),
                 if p.nonce < 2 then SentHandshake(2, s.buffered) else SentData(4, s.buffered)]
  {}

  // --------------------------------------------------- what callers can rely on

  predicate IsDelivered(e: Entry) {
    e.DeliveredHandshake? || e.DeliveredData?
  }

  lemma TimeoutAppends(s: Session, now: nat)
    ensures var t := CheckTimeout(s, now);
            t.herKey == s.herKey && (t.log == s.log || t.log == s.log + [Lowered, WindowCleared])
  {}

  lemma HandshakeAppends(s: Session, message: Message)
    ensures var t := EncryptHandshake(s, message);
            if s.herKey != NO_KEY then t.log == s.log + [SentHandshake(s.nextNonce, message)]
            else t.log == s.log + [Lowered, SentReverse] && t.hasBuffered && t.buffered == message
  {}

  // What becomes of a message that is sent, the last thing in the log: data under the next
  // nonce once a handshake is complete, before that a handshake packet, or, while the
  // peer's key is not known, a request for it, while the message waits.
  lemma SendSends(s: Session, message: Message, now: nat)
    ensures var before, t := CheckTimeout(s, now), Send(s, message, now);
            && s.log <= t.log && t.log != []
            && var last := t.log[|t.log| - 1];
            if before.nextNonce >= 4 then last == SentData(before.nextNonce, message)
            else if s.herKey != NO_KEY then last == SentHandshake(before.nextNonce, message)
            else last == SentReverse && t.hasBuffered && t.buffered == message
  {
    hide CheckTimeout, EncryptHandshake;
    TimeoutAppends(s, now);
    HandshakeAppends(CheckTimeout(s, now), message);
  }

  lemma SendPassesNothingUp(s: Session, message: Message, now: nat)
    ensures var t := Send(s, message, now);
            s.log <= t.log && forall i | |s.log| <= i < |t.log| :: !IsDelivered(t.log[i])
  {
    hide CheckTimeout, EncryptHandshake;
    TimeoutAppends(s, now);
    HandshakeAppends(CheckTimeout(s, now), message);
  }

  // What is passed up is the content of the packet that came in, which was not rejected,
  // and for a handshake or an authenticated packet decrypted; and the nonce of an
  // authenticated one was not delivered since the window was cleared.
  predicate IsPassedUp(s: Session, p: Packet, r: Result, e: Entry) {
    && r.Fine?
    && match e
       case DeliveredHandshake(message) => message == p.content && p.opens
       case DeliveredData(nonce, checked, message) =>
         && message == p.content && nonce == p.nonce && checked == s.authenticatePackets
         && (checked ==> p.opens && nonce !in Incoming(s.log))
       case _ => true
  }

  ghost predicate PassesUp(s: Session, p: Packet, r: Result, t: Session) {
    s.log <= t.log && forall i | |s.log| <= i < |t.log| && IsDelivered(t.log[i]) :: IsPassedUp(s, p, r, t.log[i])
  }

  lemma ReceivePassesUp(s: Session, p: Packet, now: nat)
    requires Disciplined(s)
    ensures PassesUp(s, p, Receive(s, p, now).0, Receive(s, p, now).1)
  {
    hide Disciplined, DecryptMessage, DecryptHandshake, CallReceived, Reset, PassesUp;
    var raised := s.(nextNonce := s.nextNonce + 3);
    ChangeKeeps(s, s);
    DataPassesUp(s, s, p, now);
    if s.nextNonce < 5 {
      ChangeKeeps(s, raised);
      DataPassesUp(s, raised, p, now);
    }
    HandshakePassesUp(s, p, now);
    NothingPassesUp(s, p, Undersize, s);
  }

  lemma NothingPassesUp(s: Session, p: Packet, r: Result, t: Session)
    requires s.log <= t.log && forall i | |s.log| <= i < |t.log| :: !IsDelivered(t.log[i])
    ensures PassesUp(s, p, r, t)
  {}

  lemma DataPassesUp(s: Session, raised: Session, p: Packet, now: nat)
    requires Disciplined(raised) && raised == s.(nextNonce := raised.nextNonce)
    ensures var (ok, after) := DecryptMessage(raised, p);
            if ok then PassesUp(s, p, Fine,
                CallReceived(after, DeliveredData(p.nonce, s.authenticatePackets, p.content), now))
            else PassesUp(s, p, Undeliverable, Reset(after)) && PassesUp(s, p, Undeliverable, after)
  {
    hide Check, Represents, AlwaysDisciplined, FollowsHandshakes, Outgoing, Incoming;
    CheckMeans(s.window, Seen(s.log), p.nonce);
  }

  lemma HandshakePassesUp(s: Session, p: Packet, now: nat)
    ensures PassesUp(s, p, DecryptHandshake(s, p, now).0, DecryptHandshake(s, p, now).1)
  {
    hide Incoming, Accept, ConnectToMe, PassesUp;
    var (named, user, tried) := TryAuth(s, p.auth);
    NothingPassesUp(s, p, Authentication, tried);
    NothingPassesUp(s, p, Undersize, s);
    ConnectPassesNothingUp(s, p);
    if p.opens {
      AcceptPassesUp(s, tried, p, user, now);
    }
  }

  lemma ConnectPassesNothingUp(s: Session, p: Packet)
    ensures PassesUp(s, p, Fine, ConnectToMe(s, p))
  {
    hide Incoming;
  }

  lemma AcceptPassesUp(s: Session, tried: Session, p: Packet, user: nat, now: nat)
    requires tried == s.(authenticatePackets := tried.authenticatePackets) && p.opens
    ensures PassesUp(s, p, Fine, Accept(tried, p, user, now))
  {
    hide Incoming, Send;
    SendPassesNothingUp(Settle(tried, p, user), tried.buffered, now);
  }

  lemma ResetStartsAnew(s: Session)
    ensures var log := Reset(s).log; Outgoing(log) == Incoming(log) == Handshakes(log) == []
  {
    assert s.log + [Lowered, WindowCleared] == s.log + [Lowered] + [WindowCleared];
    Latest(s.log, Lowered);
    Latest(s.log + [Lowered], WindowCleared);
  }

  // A handshake that is rejected can all the same switch the session to authenticated
  // packets: exactly where its header names no known password, asks for them, and the
  // session did not have them yet.
  lemma RejectedSwitchesExactly(s: Session, p: Packet, now: nat)
    ensures var (r, t) := DecryptHandshake(s, p, now);
            (r.Authentication? && t.authenticatePackets != s.authenticatePackets) <==>
              && p.length >= HEADER_SIZE && !(s.nextNonce < 2 && p.nonce == CONNECT_TO_ME && !s.requireAuth)
              && !(p.auth.authType == 1 && p.auth.known) && p.auth.wantsAuthentication && !s.authenticatePackets
              && (|| s.requireAuth || p.auth.authType != 0 || !p.opens
                  || (p.publicKey != s.herKey && !(p.nonce < 2 && (s.herKey == NO_KEY || s.nextNonce == 0))))
  {
    hide Accept;
  }

  // One of them: a hello without a password to a fresh session that requires one.
  lemma RejectedHelloSwitches(herKey: nat, now: nat)
    ensures var s := Fresh(NO_KEY, true, false, 60, now);
            var hello := Packet(0, HEADER_SIZE, Auth(0, false, NO_USER, 0, true), herKey, true, []);
            Receive(s, hello, now) == (Authentication, s.(authenticatePackets := true))
  {}

  // -------------------------------------------------------- required authentication

  // A handshake with a recognized user was accepted before a given moment.
  ghost predicate WasAccepted(log: seq<Entry>, before: nat)
    requires before <= |log|
  {
    exists j | 0 <= j < before :: log[j].Accepted? && log[j].user != NO_USER
  }

  // Nothing reaches the upper layer before that, and until then the session knows no
  // key and stays in state 0.
  ghost predicate Guarded(s: Session) {
    && s.requireAuth
    && (forall i | 0 <= i < |s.log| && IsDelivered(s.log[i]) :: WasAccepted(s.log, i))
    && (WasAccepted(s.log, |s.log|) || (s.herKey == NO_KEY && s.nextNonce == 0))
  }

  lemma AcceptedBefore(log: seq<Entry>, i: nat)
    requires i <= |log| && WasAccepted(log, i)
    ensures WasAccepted(log, |log|)
  {
    var j :| 0 <= j < i && log[j].Accepted? && log[j].user != NO_USER;
  }

  lemma DeliveredAfterAccepted(s: Session)
    requires Guarded(s)
    ensures forall e <- s.log :: IsDelivered(e) ==> WasAccepted(s.log, |s.log|)
  {
    forall e <- s.log
      ensures IsDelivered(e) ==> WasAccepted(s.log, |s.log|)
    {
      var i :| 0 <= i < |s.log| && s.log[i] == e;
      if IsDelivered(s.log[i]) {
        AcceptedBefore(s.log, i);
      }
    }
  }

  lemma GuardStays(s: Session, more: seq<Entry>, t: Session)
    requires Guarded(s) && t.requireAuth && t.log == s.log + more
    requires WasAccepted(s.log, |s.log|)
          || (t.herKey == NO_KEY && t.nextNonce == 0 && forall e <- more :: !IsDelivered(e))
    ensures Guarded(t)
  {
    forall i | 0 <= i < |t.log| && IsDelivered(t.log[i])
      ensures WasAccepted(t.log, i)
    {
      if i < |s.log| {
        var j :| 0 <= j < i && s.log[j].Accepted? && s.log[j].user != NO_USER;
        assert t.log[j] == s.log[j];
      } else {
        assert t.log[i] == more[i - |s.log|];
        var j :| 0 <= j < |s.log| && s.log[j].Accepted? && s.log[j].user != NO_USER;
        assert t.log[j] == s.log[j];
      }
    }
    if WasAccepted(s.log, |s.log|) {
      var j :| 0 <= j < |s.log| && s.log[j].Accepted? && s.log[j].user != NO_USER;
      assert t.log[j] == s.log[j];
    }
  }

  ghost predicate Extends(t: Session, s: Session) {
    s.log <= t.log && t.requireAuth == s.requireAuth
  }

  // No handler takes anything back.
  lemma StepExtends(s: Session, e: Event)
    ensures Extends(Step(s, e), s)
  {
    hide Send, Receive;
    match e
    case Sending(message, now) => SendExtends(s, message, now);
    case Receiving(p, now) => ReceiveExtends(s, p, now);
    case Resetting =>
    case Polling(now) =>
  }

  lemma ReceiveExtends(s: Session, p: Packet, now: nat)
    ensures Extends(Receive(s, p, now).1, s)
  {
    hide DecryptMessage, DecryptHandshake, CallReceived, Reset;
    DecryptExtends(s, p, DeliveredData(p.nonce, s.authenticatePackets, p.content), now);
    DecryptExtends(s.(nextNonce := s.nextNonce + 3), p, DeliveredData(p.nonce, s.authenticatePackets, p.content), now);
    DecryptHandshakeExtends(s, p, now);
  }

  lemma DecryptExtends(s: Session, p: Packet, e: Entry, now: nat)
    ensures var (ok, after) := DecryptMessage(s, p);
            Extends(CallReceived(after, e, now), s) && Extends(Reset(after), s) && Extends(after, s)
  {
    hide Check;
  }

  lemma DecryptHandshakeExtends(s: Session, p: Packet, now: nat)
    ensures Extends(DecryptHandshake(s, p, now).1, s)
  {
    hide Accept, ConnectToMe;
    var (named, user, tried) := TryAuth(s, p.auth);
    AcceptExtends(tried, p, user, now);
    ConnectExtends(s, p);
  }

  lemma ConnectExtends(s: Session, p: Packet)
    ensures Extends(ConnectToMe(s, p), s)
  {}

  // What it takes to leave the locked state: a handshake that decrypts and names,
  // with its password hashed no further, a user.
  lemma UnlockedBy(s: Session, p: Packet, now: nat)
    requires s.requireAuth && s.herKey == NO_KEY && s.nextNonce == 0
    ensures var t := Receive(s, p, now).1;
            t.herKey != NO_KEY || t.nextNonce != 0 || t.log != s.log ==>
              p.opens && p.auth.authType == 1 && p.auth.known && p.auth.derivations == 0 && p.auth.knownUser != NO_USER
  {
    hide Accept;
  }

  lemma SendExtends(s: Session, message: Message, now: nat)
    ensures Extends(Send(s, message, now), s)
  {
    hide CheckTimeout, EncryptHandshake;
    SendPassesNothingUp(s, message, now);
    SendKeepsGuard(s, message, now);
  }

  lemma SendKeepsGuard(s: Session, message: Message, now: nat)
    ensures CheckTimeout(s, now).requireAuth == s.requireAuth
    ensures EncryptHandshake(CheckTimeout(s, now), message).requireAuth == s.requireAuth
  {}

  lemma AcceptExtends(s: Session, p: Packet, user: nat, now: nat)
    ensures s.log + [Lowered, Accepted(user)] <= Accept(s, p, user, now).log
    ensures Accept(s, p, user, now).requireAuth == s.requireAuth
  {
    var settled := Settle(s, p, user);
    SendExtends(settled, s.buffered, now);
  }

  lemma AcceptGuards(s: Session, p: Packet, user: nat, now: nat)
    requires Guarded(s) && user != NO_USER
    ensures Guarded(Accept(s, p, user, now))
  {
    hide Accept;
    var t := Accept(s, p, user, now);
    AcceptExtends(s, p, user, now);
    var accepted := s.(log := s.log + [Lowered, Accepted(user)]);
    assert accepted.log[|s.log| + 1] == Accepted(user);
    assert WasAccepted(accepted.log, |accepted.log|);
    NothingDelivered(s, user, accepted);
    GuardStays(accepted, t.log[|accepted.log|..], t);
  }

  lemma SettleGuards(s: Session, p: Packet, user: nat)
    requires Guarded(s) && user != NO_USER
    ensures Guarded(Settle(s, p, user))
  {
    var t := Settle(s, p, user);
    assert t.log[|s.log| + 1] == Accepted(user);
    NothingDelivered(s, user, t);
  }

  lemma NothingDelivered(s: Session, user: nat, t: Session)
    requires Guarded(s) && t.requireAuth && t.log == s.log + [Lowered, Accepted(user)]
    requires WasAccepted(t.log, |t.log|)
    ensures Guarded(t)
  {
    forall i | 0 <= i < |t.log| && IsDelivered(t.log[i])
      ensures WasAccepted(t.log, i)
    {
      assert i < |s.log|;
      var j :| 0 <= j < i && s.log[j].Accepted? && s.log[j].user != NO_USER;
      assert t.log[j] == s.log[j];
    }
  }

  // While no user was recognized, a packet can do nothing but get one accepted.
  lemma LockedReceive(s: Session, p: Packet, now: nat)
    requires Guarded(s) && s.herKey == NO_KEY && s.nextNonce == 0
    ensures Guarded(Receive(s, p, now).1)
  {
    hide Accept, Guarded;
    GuardMeans(s);
    var (named, user, tried) := TryAuth(s, p.auth);
    assert s.log + [] == s.log;
    GuardStaysPut(s, tried);
    if user != NO_USER {
      AcceptGuards(tried, p, user, now);
    }
  }

  lemma GuardMeans(s: Session)
    requires Guarded(s)
    ensures s.requireAuth
  {}

  lemma GuardStaysPut(s: Session, t: Session)
    requires Guarded(s) && s.herKey == NO_KEY && s.nextNonce == 0
    requires t == s.(authenticatePackets := t.authenticatePackets)
    ensures Guarded(t)
  {}

  lemma LockedSend(s: Session, message: Message, now: nat)
    requires Guarded(s) && s.herKey == NO_KEY && s.nextNonce == 0
    ensures Guarded(Send(s, message, now))
  {
    hide Guarded;
    GuardMeans(s);
    var checked := CheckTimeout(s, now);
    LockedTimeout(s, now);
    GuardStays(checked, [Lowered, SentReverse], Send(s, message, now));
  }

  lemma LockedTimeout(s: Session, now: nat)
    requires Guarded(s) && s.herKey == NO_KEY && s.nextNonce == 0
    ensures Guarded(CheckTimeout(s, now)) && Guarded(Reset(s))
    ensures CheckTimeout(s, now).herKey == NO_KEY && CheckTimeout(s, now).nextNonce == 0
  {
    hide Guarded;
    GuardMeans(s);
    GuardStays(s, [Lowered, WindowCleared], Reset(s));
    GuardStays(s, [Lowered, WindowCleared], Reset(s.(timeOfLastPacket := now)));
  }

  // Over every run of a session that requires authentication and starts without a key:
  // before a handshake that names a recognized user has decrypted, no message is
  // passed up, no key is learned and the state is never left.
  lemma {:induction false} AuthenticationIsRequired(authenticatePackets: bool, resetAfter: nat,
      now: nat, events: seq<Event>)
    ensures Guarded(Run(Fresh(NO_KEY, true, authenticatePackets, resetAfter, now), events))
  {
    hide Guarded, Step;
    var start := Fresh(NO_KEY, true, authenticatePackets, resetAfter, now);
    if events == [] {
      FreshIsGuarded(start);
    } else {
      AuthenticationIsRequired(authenticatePackets, resetAfter, now, events[..|events| - 1]);
      GuardSteps(Run(start, events[..|events| - 1]), events[|events| - 1]);
    }
  }

  lemma FreshIsGuarded(s: Session)
    requires s.requireAuth && s.log == [] && s.herKey == NO_KEY && s.nextNonce == 0
    ensures Guarded(s)
  {}

  // Every step keeps the discipline, and the guard of a session that has one.
  lemma StepKeeps(s: Session, e: Event, guarded: bool)
    requires Disciplined(s) && (guarded ==> Guarded(s))
    ensures Disciplined(Step(s, e)) && (guarded ==> Guarded(Step(s, e)))
  {
    hide Disciplined, Guarded, Send, Receive, Reset, CheckTimeout;
    if guarded {
      GuardSteps(s, e);
    }
    match e
    case Sending(message, sentAt) => SendKeeps(s, message, sentAt);
    case Receiving(p, receivedAt) => ReceiveKeeps(s, p, receivedAt);
    case Resetting => ResetKeeps(s);
    case Polling(polledAt) => TimeoutKeeps(s, polledAt);
  }

  lemma GuardSteps(s: Session, e: Event)
    requires Guarded(s)
    ensures Guarded(Step(s, e))
  {
    hide Send, Receive, Reset, CheckTimeout;
    var t := Step(s, e);
    StepExtends(s, e);
    if WasAccepted(s.log, |s.log|) {
      GuardStays(s, t.log[|s.log|..], t);
    } else {
      match e
      case Sending(message, now) => LockedSend(s, message, now);
      case Receiving(p, now) => LockedReceive(s, p, now);
      case Resetting => LockedTimeout(s, 0);
      case Polling(now) => LockedTimeout(s, now);
    }
  }
}
