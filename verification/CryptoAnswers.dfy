// What a session makes of the packets it gets and of the messages it is given, said by
// what the packet is and what was delivered before.

module CryptoAnswers {
  import opened ReplayProtector
  import opened CryptoSession

  const MAX_TIME: nat := 0x1_0000_0000_0000_0000

  // Without traffic for longer than the limit.  A clock that has gone back counts as far
  // ahead, the difference being an unsigned one.
  predicate IsIdle(s: Session, now: nat) {
    || now - s.timeOfLastPacket > s.resetAfter
    || (now < s.timeOfLastPacket && MAX_TIME + now - s.timeOfLastPacket > s.resetAfter)
  }

  // What no traffic changes.
  predicate IsSameSession(s: Session, t: Session) {
    t.requireAuth == s.requireAuth && t.resetAfter == s.resetAfter
  }

  predicate HasSamePeer(s: Session, t: Session) {
    && IsSameSession(s, t) && t.herKey == s.herKey && t.user == s.user
    && t.authenticatePackets == s.authenticatePackets
  }

  predicate KeepsMessage(s: Session, t: Session) {
    t.hasBuffered == s.hasBuffered && t.buffered == s.buffered
  }

  // ------------------------------------------------------------------ idle sessions

  // The session with its nonces, its handshake and its replay window started anew.
  predicate IsRestarted(s: Session, t: Session) {
    && t.nextNonce == 0 && !t.isInitiator && t.window == CLEAR && t.log == s.log + [Lowered, WindowCleared]
    && HasSamePeer(s, t) && KeepsMessage(s, t)
  }

  // A session is restarted exactly when it is idle, and then counts as active again.
  lemma IdleIsRestarted(s: Session, now: nat)
    ensures var t := CheckTimeout(s, now);
            && (IsIdle(s, now) ==> IsRestarted(s, t) && t.timeOfLastPacket == now)
            && (!IsIdle(s, now) ==> t == s)
  {}

  // ---------------------------------------------------------------- sending messages

  // What becomes of a message in a session that is not idle.
  ghost predicate IsSentBy(s: Session, message: Message, t: Session) {
    && HasSamePeer(s, t) && t.window == s.window && t.timeOfLastPacket == s.timeOfLastPacket
    && if s.nextNonce >= 4 then
         && t.log == s.log + [SentData(s.nextNonce, message)] && t.nextNonce == s.nextNonce + 1
         && t.isInitiator == s.isInitiator && KeepsMessage(s, t)
       else if s.herKey != NO_KEY then
         && t.log == s.log + [SentHandshake(s.nextNonce, message)] && KeepsMessage(s, t)
         && t.nextNonce == (if s.nextNonce <= 1 then 1 else 3)
         && t.isInitiator == (s.nextNonce <= 1 || s.isInitiator)
       else
         && t.log == s.log + [Lowered, SentReverse] && t.hasBuffered && t.buffered == message
         && t.nextNonce == 0 && t.isInitiator == s.isInitiator
  }

  ghost predicate IsSent(s: Session, message: Message, now: nat, t: Session) {
    if IsIdle(s, now) then
      exists r: Session :: IsRestarted(s, r) && r.timeOfLastPacket == now && IsSentBy(r, message, t)
    else IsSentBy(s, message, t)
  }

  // After a handshake it goes out as data under the next nonce; before that it goes along
  // with a hello or a key, or waits for the key of the peer.  An idle session begins
  // with a hello again.
  lemma MessageIsSent(s: Session, message: Message, now: nat)
    ensures IsSent(s, message, now, Send(s, message, now))
  {
    hide CheckTimeout, IsRestarted, IsIdle;
    IdleIsRestarted(s, now);
    SentAtOnce(CheckTimeout(s, now), message);
  }

  lemma SentAtOnce(s: Session, message: Message)
    ensures IsSentBy(s, message, if s.nextNonce < 4 then EncryptHandshake(s, message) else EncryptMessage(s, message))
  {}

  // -------------------------------------------------------------------- data packets

  predicate IsLongEnough(s: Session, p: Packet) {
    p.length >= if s.authenticatePackets then 20 else 4
  }

  // Nonces up to 3 and the highest one are those of handshakes; an established session has
  // no use for nonce 4 either.
  predicate IsData(s: Session, p: Packet) {
    if s.nextNonce >= 5 then p.nonce >= 5 else p.nonce >= 4 && p.nonce != CONNECT_TO_ME && s.herKey != NO_KEY
  }

  // Where packets are authenticated: it decrypts, its nonce was not delivered before and
  // is no more than 20 below the highest that was.
  ghost predicate IsGenuine(s: Session, p: Packet) {
    s.authenticatePackets ==>
      p.opens && p.nonce !in Incoming(s.log) && forall n <- Incoming(s.log) :: n <= p.nonce + 20
  }

  // The content is passed up once, and only where packets are authenticated does this show
  // that the peer is there.
  predicate IsDataPassedUp(s: Session, p: Packet, now: nat, t: Session) {
    && t.log == s.log + [DeliveredData(p.nonce, s.authenticatePackets, p.content)]
    && t.nextNonce == (if s.nextNonce >= 5 then s.nextNonce else s.nextNonce + 3)
    && t.timeOfLastPacket == (if s.authenticatePackets then now else s.timeOfLastPacket)
    && HasSamePeer(s, t) && KeepsMessage(s, t) && t.isInitiator == s.isInitiator
  }

  // A data packet is passed up exactly when it is genuine; after that the session is
  // established, except where no handshake had been accepted before.  Else an established
  // session stays as it is, and one that waited for its first data packet starts anew.
  lemma DataIsAnswered(s: Session, p: Packet, now: nat)
    requires Disciplined(s) && IsLongEnough(s, p) && IsData(s, p)
    ensures var (r, t) := Receive(s, p, now);
            if IsGenuine(s, p) then
              r.Fine? && IsDataPassedUp(s, p, now, t) && (t.nextNonce >= 5 <==> s.nextNonce >= 2)
            else
              && r.Undeliverable?
              && if s.nextNonce >= 5 then t == s
                 else IsRestarted(s, t) && t.timeOfLastPacket == s.timeOfLastPacket
  {
    hide Disciplined, Check, Incoming;
    GenuineIsChecked(s, p);
  }

  lemma GenuineIsChecked(s: Session, p: Packet)
    requires Disciplined(s)
    ensures var (ok, window) := Check(s.window, p.nonce);
            && (IsGenuine(s, p) <==> (s.authenticatePackets ==> p.opens && ok))
            && (!ok ==> window == s.window)
  {
    hide Check, Incoming, AlwaysDisciplined, FollowsHandshakes, Represents;
    CheckMeans(s.window, Seen(s.log), p.nonce);
    SeenIsIncoming(s.log);
    RefusedKeepsWindow(s.window, p.nonce);
  }

  lemma SeenIsIncoming(log: seq<Entry>)
    ensures forall n :: n in Seen(log) <==> n in Incoming(log)
  {}

  lemma RefusedKeepsWindow(w: Window, nonce: nat)
    ensures !Check(w, nonce).0 ==> Check(w, nonce).1 == w
  {}

  // ---------------------------------------------------------------------- handshakes

  // Refused for its length: shorter than any packet, or a handshake without its header.
  lemma RuntsAreRefused(s: Session, p: Packet, now: nat)
    ensures var (r, t) := Receive(s, p, now);
            && (r.Undersize? <==> !IsLongEnough(s, p) || (!IsData(s, p) && p.length < HEADER_SIZE))
            && (r.Undersize? ==> t == s)
  {
    hide Check, Accept, ConnectToMe;
  }

  predicate IsHandshake(s: Session, p: Packet) {
    IsLongEnough(s, p) && !IsData(s, p) && p.length >= HEADER_SIZE
  }

  // A peer asks to be connected to; that is granted before state 2 unless the session
  // requires authentication.
  predicate AsksForHello(s: Session, p: Packet) {
    p.nonce == CONNECT_TO_ME && s.nextNonce <= 1 && !s.requireAuth
  }

  // It is answered with an empty hello, to the peer that is known or else to the one that
  // asks.
  predicate IsHelloSent(s: Session, p: Packet, t: Session) {
    && t.herKey == (if s.herKey == NO_KEY then p.publicKey else s.herKey) && t.user == NO_USER
    && IsSameSession(s, t) && t.authenticatePackets == s.authenticatePackets
    && t.window == s.window && t.timeOfLastPacket == s.timeOfLastPacket
    && if t.herKey != NO_KEY then
         && t.log == s.log + [Lowered, SentHandshake(0, [])] && t.nextNonce == 1 && t.isInitiator && KeepsMessage(s, t)
       else
         && t.log == s.log + [Lowered, Lowered, SentReverse] && t.nextNonce == 0 && t.isInitiator == s.isInitiator
         && t.hasBuffered && t.buffered == []
  }

  lemma RequestIsAnswered(s: Session, p: Packet, now: nat)
    requires IsHandshake(s, p) && AsksForHello(s, p)
    ensures var (r, t) := Receive(s, p, now); r.Fine? && IsHelloSent(s, p, t)
  {
    hide DecryptMessage, Accept, TryAuth;
  }

  // A header that names a password which is known.
  predicate NamesPassword(auth: Auth) {
    auth.authType == 1 && auth.known
  }

  // The user it stands for; a password that is hashed further stands for none.
  predicate IsUserOf(user: nat, auth: Auth) {
    if NamesPassword(auth) && auth.derivations == 0 then user == auth.knownUser else user == NO_USER
  }

  // A handshake that is accepted decrypts, comes from the known peer, or is a hello where
  // no peer is known or nothing was sent yet, and names a password that is known, or none
  // at all; one of a user where authentication is required.
  predicate IsAcceptable(s: Session, p: Packet) {
    && p.opens
    && (p.publicKey == s.herKey || (p.nonce <= 1 && (s.herKey == NO_KEY || s.nextNonce == 0)))
    && (NamesPassword(p.auth) || p.auth.authType == 0)
    && (s.requireAuth ==> NamesPassword(p.auth) && p.auth.derivations == 0 && p.auth.knownUser != NO_USER)
  }

  // Without a password that is known, a header that asks for it switches the session to
  // authenticated packets.
  predicate IsSwitched(s: Session, p: Packet, t: Session) {
    t.authenticatePackets <==> s.authenticatePackets || (!NamesPassword(p.auth) && p.auth.wantsAuthentication)
  }

  // The peer and the user are those of the handshake.
  predicate HasNewPeer(s: Session, p: Packet, t: Session) {
    IsSameSession(s, t) && t.herKey == p.publicKey && IsUserOf(t.user, p.auth) && IsSwitched(s, p, t)
  }

  // The content is passed up: state 2 after a hello, 4 after a key, and a clear window.
  predicate IsHandshakePassedUp(s: Session, p: Packet, now: nat, t: Session) {
    && HasNewPeer(s, p, t) && KeepsMessage(s, t)
    && t.nextNonce == (if p.nonce <= 1 then 2 else 4)
    && t.isInitiator == (s.isInitiator && p.nonce > 1) && t.window == CLEAR
    && t.timeOfLastPacket == (if t.authenticatePackets then now else s.timeOfLastPacket)
    && t.log == s.log + [Lowered, Accepted(t.user), WindowCleared, DeliveredHandshake(p.content)]
  }

  // The message that waited goes out: with a key in answer to a hello, as data in answer
  // to a key; or, if the session has been idle, with a new hello.
  predicate IsWaitingMessageSent(s: Session, p: Packet, now: nat, t: Session) {
    && HasNewPeer(s, p, t) && !t.hasBuffered && t.buffered == s.buffered
    && if !IsIdle(s, now) then
         && t.window == s.window && t.timeOfLastPacket == s.timeOfLastPacket
         && if p.nonce > 1 then
              && t.nextNonce == 5 && t.isInitiator == s.isInitiator
              && t.log == s.log + [Lowered, Accepted(t.user), SentData(4, s.buffered)]
            else if p.publicKey != NO_KEY then
              && t.nextNonce == 3 && !t.isInitiator
              && t.log == s.log + [Lowered, Accepted(t.user), SentHandshake(2, s.buffered)]
            else
              && t.nextNonce == 0 && !t.isInitiator
              && t.log == s.log + [Lowered, Accepted(t.user), Lowered, SentReverse]
       else
         && t.window == CLEAR && t.timeOfLastPacket == now
         && if p.publicKey != NO_KEY then
              && t.nextNonce == 1 && t.isInitiator
              && t.log == s.log
                 + [Lowered, Accepted(t.user), Lowered, WindowCleared, SentHandshake(0, s.buffered)]
            else
              && t.nextNonce == 0 && !t.isInitiator
              && t.log == s.log + [Lowered, Accepted(t.user), Lowered, WindowCleared, Lowered, SentReverse]
  }

  lemma AcceptableIsAccepted(s: Session, p: Packet, now: nat)
    requires IsHandshake(s, p) && !AsksForHello(s, p)
    ensures var (named, user, tried) := TryAuth(s, p.auth);
            && IsUserOf(user, p.auth) && IsSwitched(s, p, tried)
            && tried == s.(authenticatePackets := tried.authenticatePackets)
            && Receive(s, p, now) ==
                 if IsAcceptable(s, p) then (Fine, Accept(tried, p, user, now)) else (Authentication, tried)
  {
    hide DecryptMessage, Accept, ConnectToMe;
  }

  lemma AcceptedIsPassedUp(s: Session, p: Packet, user: nat, tried: Session, now: nat)
    requires IsUserOf(user, p.auth) && IsSwitched(s, p, tried)
    requires tried == s.(authenticatePackets := tried.authenticatePackets)
    requires !(s.hasBuffered && p.content == [])
    ensures IsHandshakePassedUp(s, p, now, Accept(tried, p, user, now))
  {
    hide Send, IsUserOf, NamesPassword;
  }

  lemma SettledSends(s: Session, p: Packet, user: nat, now: nat)
    ensures var settled := Settle(s, p, user);
            && settled.log == s.log + [Lowered, Accepted(user)] && settled.user == user
            && settled.herKey == p.publicKey && settled.nextNonce == (if p.nonce <= 1 then 2 else 4)
            && settled.isInitiator == (s.isInitiator && p.nonce > 1)
            && IsSameSession(s, settled) && settled.authenticatePackets == s.authenticatePackets
            && KeepsMessage(s, settled) && settled.window == s.window && settled.timeOfLastPacket == s.timeOfLastPacket
            && (IsIdle(settled, now) <==> IsIdle(s, now))
  {}

  lemma AcceptedIsSent(s: Session, p: Packet, user: nat, tried: Session, now: nat)
    requires IsUserOf(user, p.auth) && IsSwitched(s, p, tried)
    requires tried == s.(authenticatePackets := tried.authenticatePackets)
    requires s.hasBuffered && p.content == []
    ensures IsWaitingMessageSent(s, p, now, Accept(tried, p, user, now))
  {
    hide Send, IsUserOf, NamesPassword, Settle;
    SettledSends(tried, p, user, now);
    MessageIsSent(Settle(tried, p, user), tried.buffered, now);
  }

  // Of the handshakes exactly the acceptable ones are accepted; the others leave the session
  // as it was, but for the switch to authenticated packets.
  lemma HandshakeIsAnswered(s: Session, p: Packet, now: nat)
    requires IsHandshake(s, p) && !AsksForHello(s, p)
    ensures var (r, t) := Receive(s, p, now);
            if IsAcceptable(s, p) then
              && r.Fine?
              && if s.hasBuffered && p.content == [] then IsWaitingMessageSent(s, p, now, t)
                 else IsHandshakePassedUp(s, p, now, t)
            else
              r.Authentication? && IsSwitched(s, p, t) && t == s.(authenticatePackets := t.authenticatePackets)
  {
    hide *;
    AcceptableIsAccepted(s, p, now);
    var (named, user, tried) := TryAuth(s, p.auth);
    if s.hasBuffered && p.content == [] {
      AcceptedIsSent(s, p, user, tried, now);
    } else {
      AcceptedIsPassedUp(s, p, user, tried, now);
    }
  }

  // ------------------------------------------------------------------ all of it

  // What a packet does to a session, whatever it is.
  ghost predicate IsAnswered(s: Session, p: Packet, now: nat, r: Result, t: Session) {
    if !IsLongEnough(s, p) || (!IsData(s, p) && p.length < HEADER_SIZE) then r.Undersize? && t == s
    else if IsData(s, p) then
      if IsGenuine(s, p) then r.Fine? && IsDataPassedUp(s, p, now, t)
      else
        && r.Undeliverable?
        && if s.nextNonce >= 5 then t == s else IsRestarted(s, t) && t.timeOfLastPacket == s.timeOfLastPacket
    else if AsksForHello(s, p) then r.Fine? && IsHelloSent(s, p, t)
    else if !IsAcceptable(s, p) then
      r.Authentication? && IsSwitched(s, p, t) && t == s.(authenticatePackets := t.authenticatePackets)
    else
      && r.Fine?
      && if s.hasBuffered && p.content == [] then IsWaitingMessageSent(s, p, now, t)
         else IsHandshakePassedUp(s, p, now, t)
  }

  lemma PacketIsAnswered(s: Session, p: Packet, now: nat)
    requires Disciplined(s)
    ensures IsAnswered(s, p, now, Receive(s, p, now).0, Receive(s, p, now).1)
  {
    hide Disciplined, Receive, IsGenuine, IsAcceptable, IsDataPassedUp, IsRestarted, IsHelloSent, IsSwitched,
      IsWaitingMessageSent, IsHandshakePassedUp, AsksForHello;
    RuntsAreRefused(s, p, now);
    if IsLongEnough(s, p) && IsData(s, p) {
      DataIsAnswered(s, p, now);
    } else if IsHandshake(s, p) && AsksForHello(s, p) {
      RequestIsAnswered(s, p, now);
    } else if IsHandshake(s, p) {
      HandshakeIsAnswered(s, p, now);
    }
  }
}
