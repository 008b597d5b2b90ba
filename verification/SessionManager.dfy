// The sessions of interface/SessionManager.c, found by address or by handle and
// dropped when they have been idle.

module SessionManager {
  import opened HandleMap

  const SESSION_TIMEOUT_SECONDS: nat := 600
  const NO_KEY: nat := 0

  datatype Session = Session(lastMessageTime: nat, receiveHandle: nat, ip6: Ip6, herPubKey: nat, allocator: nat)

  // Sessions with an earlier last message are dropped.  The difference is an unsigned
  // one: in the first ten minutes of the clock it wraps around.
  function Threshold(now: nat): (threshold: nat)
    requires now < 0x1_0000_0000_0000_0000
    ensures threshold < 0x1_0000_0000_0000_0000
    ensures (threshold + SESSION_TIMEOUT_SECONDS) % 0x1_0000_0000_0000_0000 == now
  {
    if now >= SESSION_TIMEOUT_SECONDS then now - SESSION_TIMEOUT_SECONDS
    else 0x1_0000_0000_0000_0000 + now - SESSION_TIMEOUT_SECONDS
  }

  function Kept(entries: seq<Entry<Session>>, threshold: nat): seq<Entry<Session>> {
    if entries == [] then []
    else (if entries[0].value.lastMessageTime < threshold then [] else [entries[0]]) + Kept(entries[1..], threshold)
  }

  function Freed(entries: seq<Entry<Session>>, threshold: nat): seq<nat> {
    if entries == [] then []
    else
      (if entries[0].value.lastMessageTime < threshold then [entries[0].value.allocator] else [])
      + Freed(entries[1..], threshold)
  }

  // Exactly the sessions that are not idle are kept.
  lemma {:induction false} KeptMeans(entries: seq<Entry<Session>>, threshold: nat, e: Entry<Session>)
    ensures e in Kept(entries, threshold) <==> e in entries && e.value.lastMessageTime >= threshold
  {
    if entries != [] {
      KeptMeans(entries[1..], threshold, e);
    }
  }

  // After the first ten minutes of the clock those are the sessions with a message in
  // the last ten minutes ...
  lemma UnexpiredAreKept(entries: seq<Entry<Session>>, now: nat, e: Entry<Session>)
    requires SESSION_TIMEOUT_SECONDS <= now < 0x1_0000_0000_0000_0000
    ensures e in Kept(entries, Threshold(now))
            <==> e in entries && now - e.value.lastMessageTime <= SESSION_TIMEOUT_SECONDS
  {
    KeptMeans(entries, Threshold(now), e);
  }

  // ... but before, none are, not even those in use.
  lemma {:induction false} EarlyCleanupDropsAll(entries: seq<Entry<Session>>, now: nat)
    requires now < SESSION_TIMEOUT_SECONDS && forall e <- entries :: e.value.lastMessageTime <= now
    ensures Kept(entries, Threshold(now)) == []
  {
    if entries != [] {
      EarlyCleanupDropsAll(entries[1..], now);
    }
  }

  // The allocators that are freed are those of the sessions that are dropped.
  lemma {:induction false} FreedMeans(entries: seq<Entry<Session>>, threshold: nat, a: nat)
    ensures a in Freed(entries, threshold)
            <==> exists e <- entries :: e.value.lastMessageTime < threshold && e.value.allocator == a
  {
    if entries != [] {
      FreedMeans(entries[1..], threshold, a);
      assert forall e <- entries :: e == entries[0] || e in entries[1..];
    }
  }

  // ------------------------------------------------------------------------ whole runs

  datatype Call = Getting(lookupKey: Ip6, cryptoKey: nat, now: nat, allocator: nat) | Cleaning(now: nat)

  predicate IsTimely(call: Call) {
    call.now < 0x1_0000_0000_0000_0000
  }

  // The sessions after one for an address was asked for: a known one is used again, a new
  // one comes last, after a cleanup.
  function Got(t: Table<Session>, lookupKey: Ip6, cryptoKey: nat, now: nat, allocator: nat): Table<Session>
    requires now < 0x1_0000_0000_0000_0000
  {
    var i := KeyAt(t.entries, lookupKey);
    if i >= 0 then
      t.(entries := t.entries[i := t.entries[i].(value := Touched(t.entries[i].value, cryptoKey, now))])
    else
      Table(Kept(t.entries, Threshold(now)) +
        [Entry(t.nextHandle, lookupKey, Session(now, t.nextHandle, lookupKey, cryptoKey, allocator))],
        t.nextHandle + 1)
  }

  function Step(t: Table<Session>, call: Call): Table<Session>
    requires IsTimely(call)
  {
    match call
    case Getting(lookupKey, cryptoKey, now, allocator) => Got(t, lookupKey, cryptoKey, now, allocator)
    case Cleaning(now) => t.(entries := Kept(t.entries, Threshold(now)))
  }

  function Run(t: Table<Session>, calls: seq<Call>): Table<Session>
    requires forall call <- calls :: IsTimely(call)
  {
    if calls == [] then t else Step(Run(t, calls[..|calls| - 1]), calls[|calls| - 1])
  }

  function SessionOf(t: Table<Session>, handle: nat): Option<Session> {
    var i := HandleAt(t.entries, handle);
    if i == -1 then None else Some(t.entries[i].value)
  }

  // The same session later on: its address, handle and allocator stay, and so does the
  // key of its peer once it is known.
  predicate IsLater(before: Option<Session>, after: Option<Session>) {
    match after
    case None => true
    case Some(u) =>
      && before.Some? && u.ip6 == before.value.ip6 && u.receiveHandle == before.value.receiveHandle
      && u.allocator == before.value.allocator
      && (before.value.herPubKey != NO_KEY ==> u.herPubKey == before.value.herPubKey)
  }

  lemma SessionOfMeans(t: Table<Session>, e: Entry<Session>)
    requires IsTable(t) && e in t.entries
    ensures SessionOf(t, e.handle) == Some(e.value)
  {
    var i :| 0 <= i < |t.entries| && t.entries[i] == e;
    KeyOfEntry(t, i);
  }

  lemma SessionIsIn(t: Table<Session>, handle: nat) returns (e: Entry<Session>)
    requires SessionOf(t, handle).Some?
    ensures e in t.entries && e.handle == handle && SessionOf(t, handle) == Some(e.value)
  {
    e := t.entries[HandleAt(t.entries, handle)];
  }

  lemma NoSession(t: Table<Session>, handle: nat)
    requires forall i | 0 <= i < |t.entries| :: t.entries[i].handle != handle
    ensures SessionOf(t, handle) == None
  {}

  lemma {:induction false} KeptRise(entries: seq<Entry<Session>>, threshold: nat)
    requires KeysDiffer(entries) && HandlesRise(entries)
    ensures KeysDiffer(Kept(entries, threshold)) && HandlesRise(Kept(entries, threshold))
  {
    if entries != [] {
      var rest := Kept(entries[1..], threshold);
      KeptRise(entries[1..], threshold);
      forall i | 0 <= i < |rest|
        ensures entries[0].handle < rest[i].handle && entries[0].key != rest[i].key
      {
        KeptMeans(entries[1..], threshold, rest[i]);
      }
    }
  }

  lemma KeptIsTable(t: Table<Session>, threshold: nat)
    requires IsTable(t)
    ensures IsTable(t.(entries := Kept(t.entries, threshold)))
  {
    KeptRise(t.entries, threshold);
    forall e <- Kept(t.entries, threshold)
      ensures e in t.entries
    {
      KeptMeans(t.entries, threshold, e);
    }
  }

  lemma CleaningKeeps(t: Table<Session>, threshold: nat, handle: nat)
    requires IsTable(t)
    ensures var u := t.(entries := Kept(t.entries, threshold));
            IsTable(u) && (SessionOf(u, handle).Some? ==> SessionOf(u, handle) == SessionOf(t, handle))
  {
    hide IsTable, SessionOf, Kept;
    var u := t.(entries := Kept(t.entries, threshold));
    KeptIsTable(t, threshold);
    if SessionOf(u, handle).Some? {
      var e := SessionIsIn(u, handle);
      KeptMeans(t.entries, threshold, e);
      SessionOfMeans(t, e);
    }
  }

  lemma TouchingKeeps(t: Table<Session>, i: nat, value: Session, handle: nat)
    requires IsTable(t) && i < |t.entries|
    ensures var u := t.(entries := t.entries[i := t.entries[i].(value := value)]);
            && IsTable(u)
            && SessionOf(u, handle) == if handle == t.entries[i].handle then Some(value) else SessionOf(t, handle)
  {
    hide IsTable, SessionOf;
    var u := t.(entries := t.entries[i := t.entries[i].(value := value)]);
    ValueKeepsTable(t, i, value);
    assert u.entries[i] in u.entries;
    SessionOfMeans(u, u.entries[i]);
    if handle != t.entries[i].handle {
      OthersStay(t, i, u, handle);
    }
  }

  lemma OthersStay(t: Table<Session>, i: nat, u: Table<Session>, handle: nat)
    requires IsTable(t) && IsTable(u) && i < |t.entries| == |u.entries| && handle != t.entries[i].handle
    requires u.entries == t.entries[i := u.entries[i]] && u.entries[i].handle == t.entries[i].handle
    ensures SessionOf(u, handle) == SessionOf(t, handle)
  {
    hide IsTable;
    var j := HandleAt(t.entries, handle);
    if j >= 0 {
      assert u.entries[j] == t.entries[j] && u.entries[j] in u.entries;
      SessionOfMeans(u, u.entries[j]);
    } else {
      forall k | 0 <= k < |u.entries|
        ensures u.entries[k].handle != handle
      {
        if k != i {
          assert u.entries[k] == t.entries[k] && t.entries[k] in t.entries;
        }
      }
      NoSession(u, handle);
    }
  }

  lemma AddingKeeps(t: Table<Session>, key: Ip6, value: Session, handle: nat)
    requires IsTable(t) && KeyAt(t.entries, key) == -1 && handle < t.nextHandle
    ensures var u := Table(t.entries + [Entry(t.nextHandle, key, value)], t.nextHandle + 1);
            IsTable(u) && SessionOf(u, handle) == SessionOf(t, handle)
  {
    hide IsTable;
    AppendKeepsTable(t, key, value);
    var u := Table(t.entries + [Entry(t.nextHandle, key, value)], t.nextHandle + 1);
    var j := HandleAt(t.entries, handle);
    if j >= 0 {
      assert u.entries[j] == t.entries[j] && u.entries[j] in u.entries;
      SessionOfMeans(u, u.entries[j]);
    } else {
      forall k | 0 <= k < |u.entries|
        ensures u.entries[k].handle != handle
      {
        if k != |t.entries| {
          assert u.entries[k] == t.entries[k] && t.entries[k] in t.entries;
        }
      }
      NoSession(u, handle);
    }
  }

  lemma StepKeepsSession(t: Table<Session>, call: Call, handle: nat)
    requires IsTable(t) && IsTimely(call) && handle < t.nextHandle
    ensures var u := Step(t, call);
            && IsTable(u) && handle < u.nextHandle && IsLater(SessionOf(t, handle), SessionOf(u, handle))
  {
    hide IsTable, SessionOf, Kept, Threshold;
    match call
    case Getting(lookupKey, cryptoKey, now, allocator) =>
      var i := KeyAt(t.entries, lookupKey);
      if i >= 0 {
        TouchingKeeps(t, i, Touched(t.entries[i].value, cryptoKey, now), handle);
        assert t.entries[i] in t.entries;
        SessionOfMeans(t, t.entries[i]);
      } else {
        var kept := t.(entries := Kept(t.entries, Threshold(now)));
        CleaningKeeps(t, Threshold(now), handle);
        KeyStaysAway(t.entries, Threshold(now), lookupKey);
        AddingKeeps(kept, lookupKey, Session(now, t.nextHandle, lookupKey, cryptoKey, allocator), handle);
      }
    case Cleaning(now) => CleaningKeeps(t, Threshold(now), handle);
  }

  // Over every run: the session that a handle stands for keeps its address, its allocator
  // and, once it is known, the key of its peer, until it is dropped; and then the handle
  // stands for none.
  lemma {:induction false} KnownKeysStay(t: Table<Session>, calls: seq<Call>, handle: nat)
    requires IsTable(t) && handle < t.nextHandle && forall call <- calls :: IsTimely(call)
    ensures IsTable(Run(t, calls)) && handle < Run(t, calls).nextHandle
    ensures IsLater(SessionOf(t, handle), SessionOf(Run(t, calls), handle))
  {
    hide IsTable, SessionOf, Step;
    if calls != [] {
      KnownKeysStay(t, calls[..|calls| - 1], handle);
      StepKeepsSession(Run(t, calls[..|calls| - 1]), calls[|calls| - 1], handle);
    }
  }

  class SessionManager {
    const ifaceMap: Map<Session>
    var freed: seq<nat>  // the allocators of the sessions that were dropped

    // Every session knows its own address and handle.
    ghost predicate Valid()
      reads this, ifaceMap
    {
      && ifaceMap.Valid()
      && forall i | 0 <= i < |ifaceMap.keys| :: IsFiled(ifaceMap.Contents().entries[i])
    }

    constructor ()
      ensures Valid() && fresh(ifaceMap) && ifaceMap.Contents() == Table([], 0)
    {
      ifaceMap := new Map<Session>();
      freed := [];
    }

    method Drop(i: nat)
      requires Valid() && i < |ifaceMap.keys|
      modifies this, ifaceMap
      ensures Valid() && ifaceMap.Contents() == Remove(old(ifaceMap.Contents()), i)
      ensures freed == old(freed) + [old(ifaceMap.values[i].allocator)]
    {
      hide IsTable;
      freed := freed + [ifaceMap.values[i].allocator];
      var _ := ifaceMap.RemoveAt(i);
    }

    method Cleanup(nowSecs: nat)
      requires Valid() && nowSecs < 0x1_0000_0000_0000_0000
      modifies this, ifaceMap
      ensures Valid()
      ensures ifaceMap.Contents() ==
        old(ifaceMap.Contents()).(entries := Kept(old(ifaceMap.Contents().entries), Threshold(nowSecs)))
      ensures freed == old(freed) + Freed(old(ifaceMap.Contents().entries), Threshold(nowSecs))
    {
      hide IsTable, Kept, Freed, IsFiled;
      NothingKept(Threshold(nowSecs));
      ghost var all, threshold := ifaceMap.Contents().entries, Threshold(nowSecs);
      var i := 0;
      while i < ifaceMap.count
        invariant Valid() && i <= ifaceMap.count
        invariant ifaceMap.Contents().nextHandle == old(ifaceMap.Contents().nextHandle)
        invariant var now := ifaceMap.Contents().entries; now[..i] + Kept(now[i..], threshold) == Kept(all, threshold)
        invariant freed + Freed(ifaceMap.Contents().entries[i..], threshold) == old(freed) + Freed(all, threshold)
        decreases ifaceMap.count - i
      {
        ghost var now := ifaceMap.Contents().entries;
        KeptStep(now, i, threshold);
        if ifaceMap.values[i].lastMessageTime < Threshold(nowSecs) {
          Drop(i);
        } else {
          i := i + 1;
        }
      }
      ghost var left := ifaceMap.Contents().entries;
      assert left[i..] == [] && left[..i] + [] == left;
      assert freed + [] == freed;
    }

    // The session for an address; a new one if there is none, after a cleanup.
    method GetSession(lookupKey: Ip6, cryptoKey: nat, now: nat, allocator: nat) returns (index: nat)
      requires Valid() && now < 0x1_0000_0000_0000_0000
      modifies this, ifaceMap
      ensures Valid() && index < |ifaceMap.keys|
      ensures ifaceMap.keys[index] == lookupKey && ifaceMap.values[index].lastMessageTime == now
      ensures ifaceMap.Contents() == Got(old(ifaceMap.Contents()), lookupKey, cryptoKey, now, allocator)
      ensures var t := old(ifaceMap.Contents());
              if lookupKey in old(ifaceMap.keys) then
                && index < |t.entries| && t.entries[index].key == lookupKey
                && ifaceMap.keys == old(ifaceMap.keys) && ifaceMap.handles == old(ifaceMap.handles)
                && (forall j | 0 <= j < |t.entries| && j != index :: ifaceMap.values[j] == old(ifaceMap.values)[j])
                && IsUsedAgain(t.entries[index].value, ifaceMap.values[index], cryptoKey)
              else
                && ifaceMap.values[index] == Session(now, t.nextHandle, lookupKey, cryptoKey, allocator)
                && (now >= SESSION_TIMEOUT_SECONDS ==> HasUnexpired(t.entries, ifaceMap.Contents().entries, now))
      ensures freed == old(freed) +
        if lookupKey in old(ifaceMap.keys) then [] else Freed(old(ifaceMap.Contents().entries), Threshold(now))
    {
      hide IsTable, Kept, IsFiled, Threshold, HasUnexpired, Freed;
      NewKeepsUnexpired(ifaceMap.Contents(), lookupKey, cryptoKey, now, allocator);
      var ifaceIndex := ifaceMap.IndexForKey(lookupKey);
      if ifaceIndex == -1 {
        index := NewSession(lookupKey, cryptoKey, now, allocator);
      } else {
        Touch(ifaceIndex, cryptoKey, now);
        index := ifaceIndex;
      }
    }

    method NewSession(lookupKey: Ip6, cryptoKey: nat, now: nat, allocator: nat) returns (index: nat)
      requires Valid() && now < 0x1_0000_0000_0000_0000 && KeyAt(ifaceMap.Contents().entries, lookupKey) == -1
      modifies this, ifaceMap
      ensures Valid() && index < |ifaceMap.keys|
      ensures ifaceMap.keys[index] == lookupKey
      ensures ifaceMap.values[index] == Session(now, old(ifaceMap.nextHandle), lookupKey, cryptoKey, allocator)
      ensures var t := old(ifaceMap.Contents());
              ifaceMap.Contents() ==
                Table(Kept(t.entries, Threshold(now)) +
                  [Entry(t.nextHandle, lookupKey, Session(now, t.nextHandle, lookupKey, cryptoKey, allocator))],
                  t.nextHandle + 1)
      ensures freed == old(freed) + Freed(old(ifaceMap.Contents().entries), Threshold(now))
    {
      hide IsTable, Kept, Threshold, Freed;
      ghost var entries := ifaceMap.Contents().entries;
      Cleanup(now);
      KeyStaysAway(entries, Threshold(now), lookupKey);
      var s := Session(now, ifaceMap.nextHandle, lookupKey, cryptoKey, allocator);
      index := ifaceMap.PutEntry(lookupKey, s);
    }

    method Touch(index: nat, cryptoKey: nat, now: nat)
      requires Valid() && index < |ifaceMap.keys|
      modifies ifaceMap
      ensures Valid() && ifaceMap.keys == old(ifaceMap.keys) && ifaceMap.handles == old(ifaceMap.handles)
      ensures ifaceMap.values == old(ifaceMap.values)[index := Touched(old(ifaceMap.values[index]), cryptoKey, now)]
      ensures var t := old(ifaceMap.Contents());
              ifaceMap.Contents() ==
                t.(entries := t.entries[index :=
                     t.entries[index].(value := Touched(t.entries[index].value, cryptoKey, now))])
    {
      hide IsTable;
      var touched := Touched(ifaceMap.values[index], cryptoKey, now);
      ZipUpdate(ifaceMap.handles, ifaceMap.keys, ifaceMap.values, index, touched);
      ValueKeepsTable(ifaceMap.Contents(), index, touched);
      ifaceMap.values := ifaceMap.values[index := touched];
    }

    // A handle leads to the session it was given to, or to none.
    method SessionForHandle(handle: nat) returns (index: int)
      requires Valid()
      ensures -1 <= index < |ifaceMap.values|
      ensures index == -1 <==> KeyOf(ifaceMap.Contents(), handle) == None
      ensures index >= 0 ==>
        && ifaceMap.values[index].receiveHandle == handle
        && KeyOf(ifaceMap.Contents(), handle) == Some(ifaceMap.values[index].ip6)
    {
      index := ifaceMap.IndexForHandle(handle);
      if index >= 0 {
        assert ifaceMap.Contents().entries[index] in ifaceMap.Contents().entries;
      }
    }
  }

  // Of these sessions, exactly those with a message in the last ten minutes are left.
  predicate HasUnexpired(entries: seq<Entry<Session>>, left: seq<Entry<Session>>, now: nat) {
    forall e <- entries :: e in left <==> now - e.value.lastMessageTime <= SESSION_TIMEOUT_SECONDS
  }

  lemma NewKeepsUnexpired(t: Table<Session>, lookupKey: Ip6, cryptoKey: nat, now: nat, allocator: nat)
    requires now < 0x1_0000_0000_0000_0000
    ensures KeyAt(t.entries, lookupKey) == -1 && now >= SESSION_TIMEOUT_SECONDS ==>
      HasUnexpired(t.entries, Got(t, lookupKey, cryptoKey, now, allocator).entries, now)
  {
    hide Kept, Threshold;
    if KeyAt(t.entries, lookupKey) == -1 && now >= SESSION_TIMEOUT_SECONDS {
      forall e <- t.entries
        ensures e in Got(t, lookupKey, cryptoKey, now, allocator).entries
                <==> now - e.value.lastMessageTime <= SESSION_TIMEOUT_SECONDS
      {
        UnexpiredAreKept(t.entries, now, e);
      }
    }
  }

  // All but the time of the last message stays; the key of the peer is the one given only
  // where none was known.
  predicate IsUsedAgain(s: Session, u: Session, cryptoKey: nat) {
    && u.receiveHandle == s.receiveHandle && u.ip6 == s.ip6 && u.allocator == s.allocator
    && (s.herPubKey != NO_KEY || cryptoKey == NO_KEY ==> u.herPubKey == s.herPubKey)
    && (s.herPubKey == NO_KEY && cryptoKey != NO_KEY ==> u.herPubKey == cryptoKey)
  }

  // A session that is used again; a key that was not known yet is filled in.
  function Touched(s: Session, cryptoKey: nat, now: nat): Session {
    s.(lastMessageTime := now,
       herPubKey := if s.herPubKey == NO_KEY && cryptoKey != NO_KEY then cryptoKey else s.herPubKey)
  }

  lemma KeyStaysAway(entries: seq<Entry<Session>>, threshold: nat, key: Ip6)
    requires KeyAt(entries, key) == -1
    ensures KeyAt(Kept(entries, threshold), key) == -1
  {
    var i := KeyAt(Kept(entries, threshold), key);
    if i >= 0 {
      KeptMeans(entries, threshold, Kept(entries, threshold)[i]);
    }
  }

  predicate IsFiled(e: Entry<Session>) {
    e.value.receiveHandle == e.handle && e.value.ip6 == e.key
  }

  lemma NothingKept(threshold: nat)
    ensures Kept([], threshold) == [] && Freed([], threshold) == []
  {}

  lemma KeptStep(entries: seq<Entry<Session>>, i: nat, threshold: nat)
    requires i < |entries|
    ensures var cut := entries[..i] + entries[i + 1..];
            if entries[i].value.lastMessageTime < threshold then
              && cut[..i] == entries[..i] && cut[i..] == entries[i + 1..]
              && Kept(entries[i..], threshold) == Kept(cut[i..], threshold)
              && Freed(entries[i..], threshold) == [entries[i].value.allocator] + Freed(cut[i..], threshold)
            else
              && entries[..i] + Kept(entries[i..], threshold) == entries[..i + 1] + Kept(entries[i + 1..], threshold)
              && Freed(entries[i..], threshold) == Freed(entries[i + 1..], threshold)
  {
    assert entries[i..][1..] == entries[i + 1..] && entries[i..][0] == entries[i];
    assert entries[..i + 1] == entries[..i] + [entries[i]];
    var cut := entries[..i] + entries[i + 1..];
    assert cut[..i] == entries[..i] && cut[i..] == entries[i + 1..];
  }
}
