// The map with keys and handles of util/Map.h, as the session manager uses it: by
// 16-byte address, with handles issued in rising order.

module HandleMap {
  import opened Bytes
  import opened LittleEndian

  type Ip6 = s: seq<byte> | |s| == 16 witness seq(16, _ => 0)

  datatype Entry<V> = Entry(handle: nat, key: Ip6, value: V)
  datatype Table<V> = Table(entries: seq<Entry<V>>, nextHandle: nat)
  datatype Option<T> = None | Some(value: T)

  // The last four bytes, as a number.
  function Hash(key: Ip6): nat {
    Decode(key[12..])
  }

  // ---------------------------------------------------------- the map as a value

  ghost predicate KeysDiffer<V>(entries: seq<Entry<V>>) {
    forall i, j | 0 <= i < j < |entries| :: entries[i].key != entries[j].key
  }

  ghost predicate HandlesRise<V>(entries: seq<Entry<V>>) {
    forall i, j | 0 <= i < j < |entries| :: entries[i].handle < entries[j].handle
  }

  ghost predicate IsTable<V>(t: Table<V>) {
    KeysDiffer(t.entries) && HandlesRise(t.entries) && forall e <- t.entries :: e.handle < t.nextHandle
  }

  // Linear searches.
  function KeyAt<V>(entries: seq<Entry<V>>, key: Ip6): (i: int)
    ensures -1 <= i < |entries|
    ensures i >= 0 ==> entries[i].key == key
    ensures i == -1 ==> forall e <- entries :: e.key != key
  {
    if entries == [] then -1
    else if entries[|entries| - 1].key == key then |entries| - 1
    else KeyAt(entries[..|entries| - 1], key)
  }

  function HandleAt<V>(entries: seq<Entry<V>>, handle: nat): (i: int)
    ensures -1 <= i < |entries|
    ensures i >= 0 ==> entries[i].handle == handle
    ensures i == -1 ==> forall e <- entries :: e.handle != handle
  {
    if entries == [] then -1
    else if entries[|entries| - 1].handle == handle then |entries| - 1
    else HandleAt(entries[..|entries| - 1], handle)
  }

  function Put<V>(t: Table<V>, key: Ip6, value: V): Table<V> {
    var i := KeyAt(t.entries, key);
    if i == -1 then Table(t.entries + [Entry(t.nextHandle, key, value)], t.nextHandle + 1)
    else t.(entries := t.entries[i := t.entries[i].(value := value)])
  }

  function Remove<V>(t: Table<V>, i: nat): Table<V> {
    if i < |t.entries| then t.(entries := t.entries[..i] + t.entries[i + 1..]) else t
  }

  lemma AppendKeepsTable<V>(t: Table<V>, key: Ip6, value: V)
    requires IsTable(t) && KeyAt(t.entries, key) == -1
    ensures IsTable(Table(t.entries + [Entry(t.nextHandle, key, value)], t.nextHandle + 1))
  {
    assert forall i | 0 <= i < |t.entries| :: t.entries[i] in t.entries;
  }

  lemma ValueKeepsTable<V>(t: Table<V>, i: nat, value: V)
    requires IsTable(t) && i < |t.entries|
    ensures IsTable(t.(entries := t.entries[i := t.entries[i].(value := value)]))
  {
    var u := t.(entries := t.entries[i := t.entries[i].(value := value)]);
    forall e <- u.entries
      ensures e.handle < u.nextHandle
    {
      var j :| 0 <= j < |u.entries| && u.entries[j] == e;
      assert t.entries[j] in t.entries;
    }
  }

  lemma PutKeepsTable<V>(t: Table<V>, key: Ip6, value: V)
    requires IsTable(t)
    ensures IsTable(Put(t, key, value))
  {
    hide IsTable;
    var i := KeyAt(t.entries, key);
    if i == -1 {
      AppendKeepsTable(t, key, value);
    } else {
      ValueKeepsTable(t, i, value);
    }
  }

  lemma RemoveKeepsTable<V>(t: Table<V>, i: nat)
    requires IsTable(t)
    ensures IsTable(Remove(t, i))
  {
    var u := Remove(t, i);
    if i < |t.entries| {
      assert forall j | 0 <= j < |u.entries| :: u.entries[j] == t.entries[if j < i then j else j + 1];
      forall e <- u.entries
        ensures e.handle < u.nextHandle
      {
        assert e in t.entries;
      }
    }
  }

  // The key that a handle stands for.
  function KeyOf<V>(t: Table<V>, handle: nat): Option<Ip6> {
    var i := HandleAt(t.entries, handle);
    if i == -1 then None else Some(t.entries[i].key)
  }

  lemma KeyOfEntry<V>(t: Table<V>, i: nat)
    requires IsTable(t) && i < |t.entries|
    ensures HandleAt(t.entries, t.entries[i].handle) == i
    ensures KeyAt(t.entries, t.entries[i].key) == i
  {
    assert t.entries[i] in t.entries;
  }

  lemma KeyOfMeans<V>(t: Table<V>, handle: nat, e: Entry<V>)
    requires IsTable(t) && e in t.entries && e.handle == handle
    ensures KeyOf(t, handle) == Some(e.key)
  {
    var i :| 0 <= i < |t.entries| && t.entries[i] == e;
    KeyOfEntry(t, i);
  }

  // Putting changes no handle that was issued, and issues one only for a new key.
  lemma PutKeepsHandles<V>(t: Table<V>, key: Ip6, value: V, handle: nat)
    requires IsTable(t)
    ensures handle < t.nextHandle ==> KeyOf(Put(t, key, value), handle) == KeyOf(t, handle)
    ensures Put(t, key, value).nextHandle > t.nextHandle ==> KeyOf(Put(t, key, value), t.nextHandle) == Some(key)
  {
    var u := Put(t, key, value);
    PutKeepsTable(t, key, value);
    var i := HandleAt(t.entries, handle);
    if i >= 0 {
      assert u.entries[i].handle == handle && u.entries[i].key == t.entries[i].key;
      KeyOfEntry(u, i);
    }
    if u.nextHandle > t.nextHandle {
      KeyOfEntry(u, |t.entries|);
    }
  }

  // The value that is filed under a key.
  function ValueOf<V>(t: Table<V>, key: Ip6): Option<V> {
    var i := KeyAt(t.entries, key);
    if i == -1 then None else Some(t.entries[i].value)
  }

  lemma ValueOfMeans<V>(t: Table<V>, e: Entry<V>)
    requires IsTable(t) && e in t.entries
    ensures ValueOf(t, e.key) == Some(e.value)
  {
    var i :| 0 <= i < |t.entries| && t.entries[i] == e;
    KeyOfEntry(t, i);
  }

  lemma NoValue<V>(t: Table<V>, key: Ip6)
    requires forall i | 0 <= i < |t.entries| :: t.entries[i].key != key
    ensures ValueOf(t, key) == None
  {}

  // Putting files the value under its key, and leaves the other values alone.
  lemma PutValues<V>(t: Table<V>, key: Ip6, value: V, other: Ip6)
    requires IsTable(t)
    ensures ValueOf(Put(t, key, value), other) == if other == key then Some(value) else ValueOf(t, other)
  {
    hide IsTable;
    var u := Put(t, key, value);
    PutKeepsTable(t, key, value);
    var i, j := KeyAt(t.entries, key), KeyAt(t.entries, other);
    if other == key {
      var e := u.entries[if i == -1 then |t.entries| else i];
      ValueOfMeans(u, e);
    } else if j >= 0 {
      assert u.entries[j] == t.entries[j] && u.entries[j] in u.entries;
      ValueOfMeans(u, u.entries[j]);
    } else {
      forall k | 0 <= k < |u.entries|
        ensures u.entries[k].key != other
      {
        if k < |t.entries| && k != i {
          assert u.entries[k] == t.entries[k] && t.entries[k] in t.entries;
        }
      }
      NoValue(u, other);
    }
  }

  // Removing an entry takes its value away, and no other.
  lemma RemoveValues<V>(t: Table<V>, i: nat, key: Ip6)
    requires IsTable(t) && i < |t.entries|
    ensures ValueOf(Remove(t, i), key) == if key == t.entries[i].key then None else ValueOf(t, key)
  {
    hide IsTable, Remove;
    var u := Remove(t, i);
    RemoveKeepsTable(t, i);
    var j, k := KeyAt(t.entries, key), KeyAt(u.entries, key);
    if k >= 0 {
      KeyBeforeRemove(t, i, u.entries[k]);
      ValueOfMeans(t, u.entries[k]);
    } else if j >= 0 && j != i {
      EntryAfterRemove(t, i, j);
    }
  }

  lemma KeyBeforeRemove<V>(t: Table<V>, i: nat, e: Entry<V>)
    requires IsTable(t) && i < |t.entries| && e in Remove(t, i).entries
    ensures e in t.entries && e.key != t.entries[i].key
  {
    var j :| 0 <= j < |Remove(t, i).entries| && Remove(t, i).entries[j] == e;
    assert e == t.entries[if j < i then j else j + 1];
  }

  // Where an entry is after another was removed.
  lemma EntryAfterRemove<V>(t: Table<V>, i: nat, j: nat)
    requires i < |t.entries| && j < |t.entries| && j != i
    ensures t.entries[j] in Remove(t, i).entries
  {
    assert Remove(t, i).entries[if j < i then j else j - 1] == t.entries[j];
  }

  lemma EntryBeforeRemove<V>(t: Table<V>, i: nat, e: Entry<V>)
    requires IsTable(t) && i < |t.entries| && e in Remove(t, i).entries
    ensures e in t.entries && e.handle != t.entries[i].handle
  {
    var j :| 0 <= j < |Remove(t, i).entries| && Remove(t, i).entries[j] == e;
    assert e == t.entries[if j < i then j else j + 1];
  }

  // Removing an entry takes its handle out of use, and no other.
  lemma RemoveKeepsHandles<V>(t: Table<V>, i: nat, handle: nat)
    requires IsTable(t) && i < |t.entries|
    ensures KeyOf(Remove(t, i), handle) == if handle == t.entries[i].handle then None else KeyOf(t, handle)
  {
    hide IsTable, Remove;
    var u := Remove(t, i);
    RemoveKeepsTable(t, i);
    var j, k := HandleAt(t.entries, handle), HandleAt(u.entries, handle);
    if k >= 0 {
      EntryBeforeRemove(t, i, u.entries[k]);
      KeyOfMeans(t, handle, u.entries[k]);
    } else if j >= 0 && j != i {
      EntryAfterRemove(t, i, j);
    }
  }

  // ------------------------------------------------------------------ whole histories

  datatype Op<V> = Putting(key: Ip6, value: V) | Removing(i: nat)

  function After<V>(t: Table<V>, ops: seq<Op<V>>): Table<V> {
    if ops == [] then t
    else
      var before := After(t, ops[..|ops| - 1]);
      match ops[|ops| - 1]
      case Putting(key, value) => Put(before, key, value)
      case Removing(i) => Remove(before, i)
  }

  // Whether one of the steps took the entry of a handle away.
  predicate IsTaken<V>(t: Table<V>, ops: seq<Op<V>>, handle: nat) {
    ops != [] &&
    var before := After(t, ops[..|ops| - 1]);
    || IsTaken(t, ops[..|ops| - 1], handle)
    || match ops[|ops| - 1]
       case Putting(_, _) => false
       case Removing(i) => i < |before.entries| && before.entries[i].handle == handle
  }

  // Over every run: a handle that was issued stands for the key it was issued for until a
  // step takes its entry away, and from then on for nothing.
  lemma {:induction false} HandlesAreStable<V>(t: Table<V>, ops: seq<Op<V>>, handle: nat)
    requires IsTable(t) && handle < t.nextHandle
    ensures IsTable(After(t, ops)) && handle < After(t, ops).nextHandle
    ensures KeyOf(After(t, ops), handle) == if IsTaken(t, ops, handle) then None else KeyOf(t, handle)
  {
    hide IsTable, KeyOf, Put, Remove;
    if ops != [] {
      var before := After(t, ops[..|ops| - 1]);
      HandlesAreStable(t, ops[..|ops| - 1], handle);
      match ops[|ops| - 1]
      case Putting(key, value) =>
        PutKeepsTable(before, key, value);
        PutKeepsHandles(before, key, value, handle);
        PutIssues(before, key, value);
      case Removing(i) =>
        RemoveKeepsTable(before, i);
        RemoveIssuesNothing(before, i);
        if i < |before.entries| {
          RemoveKeepsHandles(before, i, handle);
        }
    }
  }

  lemma PutIssues<V>(t: Table<V>, key: Ip6, value: V)
    ensures t.nextHandle <= Put(t, key, value).nextHandle
  {}

  lemma RemoveIssuesNothing<V>(t: Table<V>, i: nat)
    ensures Remove(t, i).nextHandle == t.nextHandle
    ensures i >= |t.entries| ==> Remove(t, i) == t
  {}

  // ---------------------------------------------------------------- the map itself

  function Zip<V>(handles: seq<nat>, keys: seq<Ip6>, values: seq<V>): (entries: seq<Entry<V>>)
    requires |handles| == |keys| == |values|
    ensures |entries| == |keys|
    ensures forall i | 0 <= i < |keys| :: entries[i] == Entry(handles[i], keys[i], values[i])
  {
    seq(|keys|, i requires 0 <= i < |keys| => Entry(handles[i], keys[i], values[i]))
  }

  function Cut<T>(s: seq<T>, i: nat): seq<T>
    requires i < |s|
  {
    s[..i] + s[i + 1..]
  }

  lemma ZipCut<V>(handles: seq<nat>, keys: seq<Ip6>, values: seq<V>, i: nat)
    requires i < |handles| == |keys| == |values|
    ensures Zip(Cut(handles, i), Cut(keys, i), Cut(values, i)) == Cut(Zip(handles, keys, values), i)
  {}

  lemma ZipAppend<V>(handles: seq<nat>, keys: seq<Ip6>, values: seq<V>, e: Entry<V>)
    requires |handles| == |keys| == |values|
    ensures Zip(handles + [e.handle], keys + [e.key], values + [e.value]) == Zip(handles, keys, values) + [e]
  {}

  lemma ZipUpdate<V>(handles: seq<nat>, keys: seq<Ip6>, values: seq<V>, i: nat, value: V)
    requires i < |handles| == |keys| == |values|
    ensures var entries := Zip(handles, keys, values);
            Zip(handles, keys, values[i := value]) == entries[i := entries[i].(value := value)]
  {}

  // The parallel arrays, as far as they are filled.
  class Map<V> {
    var hashCodes: seq<nat>
    var keys: seq<Ip6>
    var handles: seq<nat>
    var values: seq<V>
    var nextHandle: nat
    var count: nat

    ghost predicate IsParallel()
      reads this
    {
      && |keys| == |hashCodes| == |handles| == |values|
      && forall i | 0 <= i < |keys| :: hashCodes[i] == Hash(keys[i])
    }

    ghost function Contents(): (t: Table<V>)
      requires IsParallel()
      reads this
    {
      Table(Zip(handles, keys, values), nextHandle)
    }

    ghost predicate Valid()
      reads this
    {
      IsParallel() && count == |keys| && IsTable(Contents())
    }

    constructor ()
      ensures Valid() && Contents() == Table([], 0)
    {
      hashCodes, keys, handles, values := [], [], [], [];
      nextHandle, count := 0, 0;
    }

    method IndexForKey(key: Ip6) returns (r: int)
      requires Valid()
      ensures r == KeyAt(Contents().entries, key)
      ensures r == -1 <==> key !in keys
    {
      var hashCode := Hash(key);
      var i := 0;
      while i < count
        invariant i <= count
        invariant forall j | 0 <= j < i :: keys[j] != key
      {
        if hashCodes[i] == hashCode && keys[i] == key {
          KeyOfEntry(Contents(), i);
          return i;
        }
        i := i + 1;
      }
      assert forall j | 0 <= j < |keys| :: Contents().entries[j].key == keys[j];
      r := -1;
    }

    // A binary search; it agrees with the linear one.
    method IndexForHandle(handle: nat) returns (r: int)
      requires Valid()
      ensures r == HandleAt(Contents().entries, handle)
      ensures r == -1 <==> handle !in handles
    {
      assert forall i | 0 <= i < |handles| :: Contents().entries[i].handle == handles[i];
      var base := 0;
      var bufferLen := count;
      while bufferLen != 0
        invariant 0 <= base && 0 <= bufferLen && base + bufferLen <= |handles|
        invariant forall i | 0 <= i < base :: handles[i] < handle
        invariant forall i | base + bufferLen <= i < |handles| :: handles[i] > handle
        decreases bufferLen
      {
        var currentHandle := handles[base + bufferLen / 2];
        if handle >= currentHandle {
          if currentHandle == handle {
            KeyOfEntry(Contents(), base + bufferLen / 2);
            return base + bufferLen / 2;
          }
          base := base + bufferLen / 2 + 1;
          bufferLen := bufferLen - 1;
        }
        bufferLen := bufferLen / 2;
      }
      r := -1;
    }

    // Takes an entry out and closes the gap.  Index -1 is no entry either, but for an empty
    // map, and only for that, the original takes it for the last one: it reports success
    // and lowers the count below zero, to the largest number of 32 bits.
    method RemoveAt(index: int) returns (r: int)
      requires Valid()
      modifies this
      ensures Valid() <==> !(index == -1 && old(count) == 0)
      ensures !Valid() ==> r == 0 && count == 0xFFFF_FFFF
      ensures Valid() ==> r == if 0 <= index < old(count) then 0 else -1
      ensures IsParallel()
      ensures Contents() == if index >= 0 then Remove(old(Contents()), index) else old(Contents())
    {
      hide IsTable;
      ghost var before := Contents();
      if 0 <= index < count - 1 {
        CloseGap(index);
        return 0;
      } else if index == count - 1 {
        if index == -1 {
          count := 0xFFFF_FFFF;
          return 0;
        }
        RemoveKeepsTable(before, index);
        ZipCut(handles, keys, values, index);
        assert Cut(handles, index) == handles[..index] && Cut(keys, index) == keys[..index];
        assert Cut(values, index) == values[..index];
        count := count - 1;
        hashCodes, keys, handles, values := hashCodes[..count], keys[..count], handles[..count], values[..count];
        return 0;
      }
      r := -1;
    }

    // Moves what is behind an entry down over it.
    method CloseGap(index: nat)
      requires Valid() && index < count
      modifies this
      ensures Valid() && count == old(count) - 1 && Contents() == Remove(old(Contents()), index)
    {
      hide IsTable;
      RemoveKeepsTable(Contents(), index);
      ZipCut(handles, keys, values, index);
      hashCodes, keys, handles, values :=
        Cut(hashCodes, index), Cut(keys, index), Cut(handles, index), Cut(values, index);
      count := count - 1;
    }

    method PutEntry(key: Ip6, value: V) returns (i: int)
      requires Valid()
      modifies this
      ensures Valid() && Contents() == Put(old(Contents()), key, value)
      ensures 0 <= i < |keys| && keys[i] == key && values[i] == value
      ensures i == if key in old(keys) then KeyAt(old(Contents()).entries, key) else |old(keys)|
    {
      hide IsTable;
      ghost var before := Contents();
      PutKeepsTable(before, key, value);
      i := IndexForKey(key);
      if i < 0 {
        i := count;
        count := count + 1;
        ZipAppend(handles, keys, values, Entry(nextHandle, key, value));
        handles := handles + [nextHandle];
        nextHandle := nextHandle + 1;
        hashCodes := hashCodes + [Hash(key)];
        keys := keys + [key];
        values := values + [value];
      } else {
        ZipUpdate(handles, keys, values, i, value);
        values := values[i := value];
      }
    }
  }
}
