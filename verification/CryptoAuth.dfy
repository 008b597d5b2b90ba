// The session object of crypto/CryptoAuth.c, updated in place by its handlers.

module CryptoAuth {
  import opened CryptoSession
  import opened CryptoAnswers
  import RP = ReplayProtector

  class Wrapper {
    var nextNonce: nat
    var herPerminentPubKey: nat
    var user: nat
    var isInitiator: bool
    var authenticatePackets: bool
    const requireAuth: bool
    var hasBufferedMessage: bool
    var bufferedMessage: Message
    const replayProtector: RP.ReplayProtector
    var timeOfLastPacket: nat
    const resetAfterInactivitySeconds: nat
    var log: seq<Entry>  // what was handed to the wrapped interface and to the upper layer
    ghost const guarded: bool  // made with required authentication and without a key

    // The replay window is one, in 32 bits.
    ghost predicate HasWindow()
      reads replayProtector
    {
      replayProtector.Valid() && replayProtector.baseOffset < RP.WORD
    }

    // Between calls: nonces and handshakes have always been in order, and where it is
    // required nothing was done without authentication.
    ghost predicate Valid()
      reads this, replayProtector
    {
      HasWindow() && Disciplined(Contents()) && (guarded ==> Guarded(Contents()))
    }

    // No user was recognized, so nothing was passed up, no key learned, state 0 not left.
    ghost predicate IsLocked()
      reads this
    {
      herPerminentPubKey == NO_KEY && nextNonce == 0 && forall e <- log :: !IsDelivered(e)
    }

    lemma ValidMeans()
      requires Valid()
      ensures RisesByOne(Outgoing(log)) && NoneTwice(Incoming(log)) && IsOrderly(Handshakes(log))
      ensures guarded ==> WasAccepted(log, |log|) || IsLocked()
    {
      NowDisciplined(Contents());
      if guarded {
        DeliveredAfterAccepted(Contents());
      }
    }

    ghost function Contents(): Session
      reads this, replayProtector
    {
      Session(nextNonce, herPerminentPubKey, user, isInitiator, authenticatePackets, requireAuth,
        hasBufferedMessage, bufferedMessage, RP.Window(replayProtector.baseOffset, replayProtector.bitfield),
        timeOfLastPacket, resetAfterInactivitySeconds, log)
    }

    constructor (herKey: nat, requireAuth: bool, authenticatePackets: bool, resetAfter: nat, now: nat)
      ensures Valid() && fresh(replayProtector) && guarded == (requireAuth && herKey == NO_KEY)
      ensures Contents() == Fresh(herKey, requireAuth, authenticatePackets, resetAfter, now)
      ensures herPerminentPubKey == herKey && this.requireAuth == requireAuth && user == NO_USER
      ensures this.authenticatePackets == authenticatePackets && resetAfterInactivitySeconds == resetAfter
      ensures nextNonce == 0 && !isInitiator && !hasBufferedMessage && timeOfLastPacket == now && log == []
    {
      guarded := requireAuth && herKey == NO_KEY;
      nextNonce, herPerminentPubKey, user := 0, herKey, NO_USER;
      isInitiator, hasBufferedMessage, bufferedMessage := false, false, [];
      this.authenticatePackets, this.requireAuth := authenticatePackets, requireAuth;
      timeOfLastPacket, resetAfterInactivitySeconds := now, resetAfter;
      replayProtector := new RP.ReplayProtector();
      log := [];
      new;
      FreshIsDisciplined(Contents());
      if guarded {
        FreshIsGuarded(Contents());
      }
    }

    // Nonces, handshakes and the replay window start anew; the peer stays known.
    method Reset()
      requires Valid()
      modifies this`nextNonce, this`isInitiator, this`log, replayProtector
      ensures Valid() && Contents() == CryptoSession.Reset(old(Contents()))
      ensures Outgoing(log) == Incoming(log) == Handshakes(log) == []
      ensures IsRestarted(old(Contents()), Contents()) && timeOfLastPacket == old(timeOfLastPacket)
    {
      StepKeeps(Contents(), Resetting, guarded);
      ResetStartsAnew(Contents());
      Restart();
    }

    method Restart()
      modifies this`nextNonce, this`isInitiator, this`log, replayProtector
      ensures HasWindow() && Contents() == CryptoSession.Reset(old(Contents()))
    {
      nextNonce := 0;
      isInitiator := false;
      replayProtector.Clear();
      log := log + [Lowered, WindowCleared];
    }

    // The reset of an idle session, and the state that is reported.
    method GetState(now: nat) returns (state: State)
      requires Valid()
      modifies this`nextNonce, this`isInitiator, this`log, this`timeOfLastPacket, replayProtector
      ensures Valid() && Contents() == CheckTimeout(old(Contents()), now)
      ensures if old(IsIdle(Contents(), now)) then IsRestarted(old(Contents()), Contents()) && timeOfLastPacket == now
              else Contents() == old(Contents())
      ensures state.New? <==> nextNonce == 0
      ensures state.Handshake1? <==> nextNonce == 1
      ensures state.Handshake2? <==> 2 <= nextNonce <= 3
      ensures state.Handshake3? <==> nextNonce == 4
    {
      StepKeeps(Contents(), Polling(now), guarded);
      IdleIsRestarted(Contents(), now);
      if Elapsed(now, timeOfLastPacket) > resetAfterInactivitySeconds {
        timeOfLastPacket := now;
        Restart();
      }
      if nextNonce == 0 {
        state := New;
      } else if nextNonce == 1 {
        state := Handshake1;
      } else if nextNonce <= 3 {
        state := Handshake2;
      } else {
        state := if nextNonce == 4 then Handshake3 else Established;
      }
    }

    method GenReverseHandshake(message: Message)
      modifies this`nextNonce, this`hasBufferedMessage, this`bufferedMessage, this`log
      ensures Contents() == CryptoSession.GenReverseHandshake(old(Contents()), message)
    {
      nextNonce := 0;
      bufferedMessage := message;
      hasBufferedMessage := true;
      log := log + [Lowered, SentReverse];
    }

    method EncryptHandshake(message: Message)
      modifies this`nextNonce, this`isInitiator, this`hasBufferedMessage, this`bufferedMessage, this`log
      ensures Contents() == CryptoSession.EncryptHandshake(old(Contents()), message)
    {
      if herPerminentPubKey == NO_KEY {
        GenReverseHandshake(message);
        return;
      }
      log := log + [SentHandshake(nextNonce, message)];
      if nextNonce < 2 {
        isInitiator := true;
        nextNonce := 1;
      } else {
        nextNonce := 3;
      }
    }

    method EncryptMessage(message: Message)
      modifies this`nextNonce, this`log
      ensures Contents() == CryptoSession.EncryptMessage(old(Contents()), message)
    {
      log := log + [SentData(nextNonce, message)];
      nextNonce := nextNonce + 1;
    }

    // The message goes out as data under the next nonce, goes along with a handshake
    // packet, or waits for the key of the peer; nothing is passed up.
    method SendMessage(message: Message, now: nat)
      requires Valid()
      modifies this, replayProtector
      ensures Valid() && Contents() == Send(old(Contents()), message, now)
      ensures IsSent(old(Contents()), message, now, Contents())
      ensures RisesByOne(Outgoing(log)) && IsOrderly(Handshakes(log))
      ensures old(log) <= log && forall i | |old(log)| <= i < |log| :: !IsDelivered(log[i])
      ensures log != []
      ensures
        var last := log[|log| - 1];
        || (nextNonce >= 5 && last == SentData(nextNonce - 1, message))
        || (1 <= nextNonce <= 3 && last.SentHandshake? && last.message == message)
        || (nextNonce == 0 && last == SentReverse && hasBufferedMessage && bufferedMessage == message)
    {
      hide Disciplined, Guarded, RisesByOne, NoneTwice, IsOrderly, WasAccepted, Outgoing, Incoming, Handshakes,
        IsDelivered, IsSent;
      StepKeeps(Contents(), Sending(message, now), guarded);
      MessageIsSent(Contents(), message, now);
      SendSends(Contents(), message, now);
      SendPassesNothingUp(Contents(), message, now);
      var _ := GetState(now);
      if nextNonce < 4 {
        EncryptHandshake(message);
      } else {
        EncryptMessage(message);
      }
      ValidMeans();
    }

    method CallReceivedMessage(e: Entry, now: nat)
      modifies this`timeOfLastPacket, this`log
      ensures Contents() == CallReceived(old(Contents()), e, now)
    {
      if authenticatePackets {
        timeOfLastPacket := now;
      }
      log := log + [e];
    }

    method DecryptMessage(p: Packet) returns (ok: bool)
      requires HasWindow() && p.nonce < RP.WORD
      modifies replayProtector
      ensures HasWindow() && (ok, Contents()) == CryptoSession.DecryptMessage(old(Contents()), p)
    {
      ok := true;
      if authenticatePackets {
        if !p.opens {
          return false;
        }
        ok := replayProtector.CheckNonce(p.nonce);
      }
    }

    method TryAuth(auth: Auth) returns (named: bool, user: nat)
      modifies this`authenticatePackets
      ensures (named, user, Contents()) == CryptoSession.TryAuth(old(Contents()), auth)
    {
      if auth.authType == 1 && auth.known {
        return true, if auth.derivations == 0 then auth.knownUser else NO_USER;
      }
      authenticatePackets := authenticatePackets || auth.wantsAuthentication;
      return false, NO_USER;
    }

    method DecryptHandshake(p: Packet, now: nat) returns (r: Result)
      requires Valid() && p.nonce < RP.WORD
      modifies this, replayProtector
      ensures HasWindow() && (r, Contents()) == CryptoSession.DecryptHandshake(old(Contents()), p, now)
    {
      if p.length < HEADER_SIZE {
        return Undersize;
      }
      if nextNonce < 2 && p.nonce == CONNECT_TO_ME && !requireAuth {
        if herPerminentPubKey == NO_KEY {
          herPerminentPubKey := p.publicKey;
        }
        nextNonce := 0;
        user := NO_USER;
        log := log + [Lowered];
        EncryptHandshake([]);
        return Fine;
      }
      var named, newUser := TryAuth(p.auth);
      if requireAuth && newUser == NO_USER {
        return Authentication;
      }
      if !named && p.auth.authType != 0 {
        return Authentication;
      }
      var state, herPermKey;
      if p.nonce < 2 {
        if herPerminentPubKey == NO_KEY || nextNonce == 0 {
          herPermKey := p.publicKey;
        } else {
          herPermKey := herPerminentPubKey;
          if p.publicKey != herPermKey {
            return Authentication;
          }
        }
        state := 2;
      } else {
        herPermKey := herPerminentPubKey;
        if p.publicKey != herPermKey {
          return Authentication;
        }
        state := 4;
      }
      if !p.opens {
        return Authentication;
      }
      TriedIsValid(old(Contents()));
      AcceptHandshake(p, newUser, state, herPermKey, now);
      r := Fine;
    }

    lemma TriedIsValid(before: Session)
      requires HasWindow() && Disciplined(before) && (guarded ==> Guarded(before))
      requires Contents() == before.(authenticatePackets := authenticatePackets)
      ensures Valid()
    {
      hide Disciplined;
      ChangeKeeps(before, Contents());
    }

    // What follows when the handshake has decrypted.
    method AcceptHandshake(p: Packet, newUser: nat, state: nat, herPermKey: nat, now: nat)
      requires Valid() && state == (if p.nonce < 2 then 2 else 4) && herPermKey == p.publicKey
      requires guarded ==> newUser != NO_USER
      modifies this, replayProtector
      ensures HasWindow() && Contents() == Accept(old(Contents()), p, newUser, now)
    {
      hide Send, CallReceived, Settle, Disciplined, Guarded;
      SettleKeeps(Contents(), p, newUser);
      if guarded {
        SettleGuards(Contents(), p, newUser);
      }
      SettleHandshake(p, newUser, state, herPermKey);
      if hasBufferedMessage && p.content == [] {
        SendMessage(bufferedMessage, now);
        hasBufferedMessage := false;
        return;
      }
      replayProtector.Clear();
      log := log + [WindowCleared];
      CallReceivedMessage(DeliveredHandshake(p.content), now);
    }

    method SettleHandshake(p: Packet, newUser: nat, state: nat, herPermKey: nat)
      requires state == (if p.nonce < 2 then 2 else 4) && herPermKey == p.publicKey
      modifies this`user, this`nextNonce, this`isInitiator, this`herPerminentPubKey, this`log
      ensures Contents() == Settle(old(Contents()), p, newUser)
    {
      user := newUser;
      nextNonce := state;
      if state == 2 {
        isInitiator := false;
      }
      herPerminentPubKey := herPermKey;
      log := log + [Lowered, Accepted(newUser)];
    }

    // What a packet does is told by what it is.  So what is passed up is the content of this
    // packet, which was neither rejected nor replayed; the key of the peer changes only where
    // it may be learned; and a guarded session is locked until a recognized user was accepted.
    method ReceiveMessage(p: Packet, now: nat) returns (r: Result)
      requires Valid() && p.nonce < RP.WORD
      modifies this, replayProtector
      ensures Valid() && (r, Contents()) == Receive(old(Contents()), p, now)
      ensures CryptoAnswers.IsAnswered(old(Contents()), p, now, r, Contents())
      ensures PassesUp(old(Contents()), p, r, Contents()) && NoneTwice(Incoming(log))
      ensures herPerminentPubKey != old(herPerminentPubKey) ==>
        MayLearnKey(old(Contents()), p) && herPerminentPubKey == p.publicKey
      ensures guarded ==> WasAccepted(log, |log|) || IsLocked()
    {
      StepKeeps(Contents(), Receiving(p, now), guarded);
      PacketIsAnswered(Contents(), p, now);
      ReceivePassesUp(Contents(), p, now);
      KeyIsPinned(Contents(), p, now);
      r := HandlePacket(p, now);
      ValidMeans();
    }

    method HandlePacket(p: Packet, now: nat) returns (r: Result)
      requires Valid() && p.nonce < RP.WORD
      modifies this, replayProtector
      ensures HasWindow() && (r, Contents()) == Receive(old(Contents()), p, now)
    {
      if p.length < (if authenticatePackets then 20 else 4) {
        return Undersize;
      }
      if nextNonce < 5 {
        if p.nonce > 3 && p.nonce != CONNECT_TO_ME && herPerminentPubKey != NO_KEY {
          nextNonce := nextNonce + 3;
          var ok := DecryptMessage(p);
          if ok {
            CallReceivedMessage(DeliveredData(p.nonce, authenticatePackets, p.content), now);
            return Fine;
          }
          Restart();
          return Undeliverable;
        }
      } else if p.nonce > 4 {
        var ok := DecryptMessage(p);
        if ok {
          CallReceivedMessage(DeliveredData(p.nonce, authenticatePackets, p.content), now);
          return Fine;
        }
        return Undeliverable;
      }
      r := DecryptHandshake(p, now);
    }
  }

  datatype State = New | Handshake1 | Handshake2 | Handshake3 | Established
}
