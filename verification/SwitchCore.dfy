// The slot table of a switch and its packet handler: the state of
// switch/SwitchCore.c and the functions that update it.

module SwitchCore {
  import opened Bytes
  import opened Bits
  import opened LabelBits
  import opened NumberCompress
  import opened Switching
  import opened LabelSplicer

  // An on-free job of an allocator: removeInterface for one slot.
  class RemovalJob {
    const slot: nat

    constructor (slot: nat)
      ensures this.slot == slot
    {
      this.slot := slot;
    }
  }

  // The on-free jobs of the allocator of an interface, as far as the switch adds to them.
  class JobList {
    var onFreeJobs: seq<RemovalJob>

    constructor ()
      ensures onFreeJobs == []
    {
      onFreeJobs := [];
    }

    method OnFree(slot: nat) returns (job: RemovalJob)
      modifies this
      ensures fresh(job) && job.slot == slot
      ensures onFreeJobs == old(onFreeJobs) + [job]
    {
      job := new RemovalJob(slot);
      onFreeJobs := onFreeJobs + [job];
    }

    // Takes the first job that is the given one off the list.
    method NotOnFree(job: RemovalJob?) returns (found: bool)
      modifies this
      ensures found <==> job in old(onFreeJobs)
      ensures onFreeJobs == WithoutFirst(old(onFreeJobs), job)
      ensures old(Distinct(onFreeJobs)) ==> Distinct(onFreeJobs)
      ensures old(Distinct(onFreeJobs)) ==>
        forall j :: j in onFreeJobs <==> j in old(onFreeJobs) && j != job
    {
      hide WithoutFirst, Distinct;
      if Distinct(onFreeJobs) {
        WithoutMeans(onFreeJobs, job);
      }
      var i := 0;
      while i < |onFreeJobs|
        invariant 0 <= i <= |onFreeJobs| && onFreeJobs == old(onFreeJobs)
        invariant job !in onFreeJobs[..i]
      {
        if onFreeJobs[i] == job {
          WithoutAt(onFreeJobs, i, job);
          onFreeJobs := onFreeJobs[..i] + onFreeJobs[i + 1..];
          return true;
        }
        i := i + 1;
      }
      WithoutAt(onFreeJobs, i, job);
      found := false;
    }
  }

  ghost predicate Distinct(jobs: seq<RemovalJob>) {
    forall i, j | 0 <= i < j < |jobs| :: jobs[i] != jobs[j]
  }

  // A list of jobs without the first occurrence of one of them.
  function WithoutFirst(jobs: seq<RemovalJob>, job: RemovalJob?): (rest: seq<RemovalJob>)
  {
    if jobs == [] then [] else if jobs[0] == job then jobs[1..] else [jobs[0]] + WithoutFirst(jobs[1..], job)
  }

  lemma {:induction false} WithoutAt(jobs: seq<RemovalJob>, i: nat, job: RemovalJob?)
    requires i <= |jobs| && job !in jobs[..i] && (i < |jobs| ==> jobs[i] == job)
    ensures WithoutFirst(jobs, job) == if i < |jobs| then jobs[..i] + jobs[i + 1..] else jobs
  {
    if i > 0 {
      assert jobs[0] == jobs[..i][0] && jobs[..i][1..] == jobs[1..][..i - 1];
      WithoutAt(jobs[1..], i - 1, job);
    }
  }

  // Where no job is listed twice, exactly the one job goes.
  lemma {:induction false} WithoutMeans(jobs: seq<RemovalJob>, job: RemovalJob?)
    requires Distinct(jobs)
    ensures forall j :: j in WithoutFirst(jobs, job) <==> j in jobs && j != job
    ensures Distinct(WithoutFirst(jobs, job))
  {
    if jobs != [] {
      assert forall i :: 0 < i < |jobs| ==> jobs[i] == jobs[1..][i - 1];
      WithoutMeans(jobs[1..], job);
      var rest := WithoutFirst(jobs[1..], job);
      assert forall i :: 0 <= i < |rest| ==> rest[i] in rest;
      assert jobs[0] !in jobs[1..];
    }
  }

  class Interface {
    const allocator: JobList
    var receiverContext: nat  // the slot the interface is attached to

    constructor (allocator: JobList)
      ensures this.allocator == allocator
    {
      this.allocator := allocator;
    }
  }

  // struct SwitchInterface, as far as it decides where packets go.
  datatype Slot = Vacant | Attached(iface: Interface, onFree: RemovalJob?)

  const ROUTER_SLOT: nat := 1

  ghost predicate IfacesAreDistinct(table: seq<Slot>) {
    forall i, j | 0 <= i < j < |table| && table[i].Attached? && table[j].Attached? :: table[i].iface != table[j].iface
  }

  // Slot indexes as the interface numbers of labels, and back; ten bits hold both.
  function NumberOf(slot: nat): bv64
    requires slot < 1024
  {
    (slot as bv10) as bv64
  }

  function SlotOf(number: bv64): nat
    requires number < 1024
  {
    (number as bv10) as int
  }

  // How many slots a switch has.
  function Size(sch: Scheme): (n: nat)
    ensures 1 < n <= 257
  {
    SlotOf(Interfaces(sch))
  }

  lemma TenBitsHold(slot: nat)
    requires slot < 257
    ensures (slot as bv10) as int == slot
  {}

  lemma TenBitsWidened(x: bv10)
    ensures x as bv64 < 1024 && (x as bv64) as bv10 == x
  {}

  lemma NumberIsSlot(slot: nat)
    requires slot < 257
    ensures NumberOf(slot) < 1024 && SlotOf(NumberOf(slot)) == slot
    ensures slot == ROUTER_SLOT <==> NumberOf(slot) == ROUTER
  {
    TenBitsHold(slot);
    TenBitsWidened(slot as bv10);
    TenBitsHold(1);
  }

  lemma NumberInRange(sch: Scheme, slot: nat)
    requires slot < Size(sch)
    ensures IsInterface(sch, NumberOf(slot))
  {}

  lemma SlotIsNumber(sch: Scheme, number: bv64)
    requires IsInterface(sch, number)
    ensures number < 1024 && SlotOf(number) < Size(sch)
    ensures number == ROUTER <==> SlotOf(number) == ROUTER_SLOT
  {}

  // Where the next interface goes if no earlier slot is free: slot 1 is kept for
  // the router.
  function NextIndex(interfaceCount: nat, routerAdded: bool): nat {
    if interfaceCount > 0 && !routerAdded then interfaceCount + 1
    else if interfaceCount == 1 then 0
    else interfaceCount
  }

  datatype AddResult = Added(slot: nat, labelOut: bv64) | OutOfSpace | OutOfBounds

  // A label with one code and the marker is one hop and names that interface.
  lemma HandedOutLabel(sch: Scheme, slot: nat)
    requires slot < Size(sch) && slot != ROUTER_SLOT
    ensures var bits := BitsUsedForNumber(sch, NumberOf(slot));
            && bits <= 64
            && var labelOut := Prepend(1, bits, GetCompressed(sch, NumberOf(slot), bits));
            && IsOneHop(sch, labelOut)
            && CodeAt(sch, labelOut, NumberOf(slot), bits)
  {
    NumberIsSlot(slot);
    NumberInRange(sch, slot);
    var number := NumberOf(slot);
    var bits := BitsUsedForNumber(sch, number);
    CanonicalWidth(sch, number);
    hide GetCompressed, GetDecompressed, Low, Prepend, NumberOf, Shr, IsOneHop, Interfaces;
    var code := GetCompressed(sch, number, bits);
    CodeFits(sch, number, bits);
    PrependedCode(1, bits, code);
    var labelOut := Prepend(1, bits, code);
    CodesArePrefixCode(sch, number, bits, labelOut);
    MarkerIsLeft(bits, code);
    OneHopMeans(sch, labelOut);
  }

  lemma CanonicalWidth(sch: Scheme, number: bv64)
    requires number != ROUTER || sch == Four
    ensures IsWidth(sch, BitsUsedForNumber(sch, number))
  {}

  lemma MarkerAbove4(code: bv64)
    requires Under(code, 0xF) == code
    ensures Right(Or(Left(1, 4), code), 4) == 1 && Or(Left(1, 4), code) != 0
  {}

  lemma MarkerAbove7(code: bv64)
    requires Under(code, 0x7F) == code
    ensures Right(Or(Left(1, 7), code), 7) == 1 && Or(Left(1, 7), code) != 0
  {}

  lemma MarkerAbove8(code: bv64)
    requires Under(code, 0xFF) == code
    ensures Right(Or(Left(1, 8), code), 8) == 1 && Or(Left(1, 8), code) != 0
  {}

  lemma MarkerAbove10(code: bv64)
    requires Under(code, 0x3FF) == code
    ensures Right(Or(Left(1, 10), code), 10) == 1 && Or(Left(1, 10), code) != 0
  {}

  lemma MarkerIsLeft(bits: nat, code: bv64)
    requires bits == 4 || bits == 7 || bits == 8 || bits == 10
    requires Low(code, bits) == code
    ensures Shr(Prepend(1, bits, code), bits) == 1 && Prepend(1, bits, code) != 0
  {
    hide Low, Shr, Shl, Under, Left, Right, Or;
    LowValue(code, bits);
    ShlValues(1);
    ShrValues(Prepend(1, bits, code));
    if bits == 4 {
      MarkerAbove4(code);
    } else if bits == 7 {
      MarkerAbove7(code);
    } else if bits == 8 {
      MarkerAbove8(code);
    } else {
      MarkerAbove10(code);
    }
  }

  class SwitchCore {
    const sch: Scheme
    const interfaces: array<Slot>
    var interfaceCount: nat
    var routerAdded: bool
    ghost var ifaces: set<Interface>      // interfaces that were ever attached
    ghost var allocators: set<JobList>  // their allocators, while not freed

    ghost predicate PeerIsLinked(i: nat)
      requires i < interfaces.Length
      reads this`ifaces, this`allocators, interfaces, ifaces, allocators
    {
      match interfaces[i]
      case Vacant => true
      case Attached(iface, onFree) =>
        && iface in ifaces && iface.receiverContext == i
        && if i == ROUTER_SLOT then onFree == null
           else
             && onFree != null && onFree.slot == i
             && iface.allocator in allocators && onFree in iface.allocator.onFreeJobs
    }

    ghost predicate JobIsLinked(a: JobList, job: RemovalJob)
      reads interfaces
    {
      && job.slot < interfaces.Length && job.slot != ROUTER_SLOT
      && interfaces[job.slot].Attached?
      && interfaces[job.slot].onFree == job
      && interfaces[job.slot].iface.allocator == a
    }

    // Peers, their back pointers and their removal jobs agree one to one.
    ghost predicate IsLinked()
      reads this`ifaces, this`allocators, interfaces, ifaces, allocators
    {
      && interfaces.Length == Size(sch)
      && (forall i | 0 <= i < interfaces.Length :: PeerIsLinked(i))
      && (forall a <- allocators, job <- a.onFreeJobs :: JobIsLinked(a, job))
      && (forall a <- allocators :: Distinct(a.onFreeJobs))
    }

    ghost predicate Valid()
      reads this, interfaces, ifaces, allocators
    {
      && IsLinked()
      && (routerAdded ==> interfaceCount > 0)
      && (forall i | 0 <= i < interfaces.Length && i != ROUTER_SLOT && interfaces[i].Attached? ::
            i < NextIndex(interfaceCount, routerAdded))
    }

    constructor (sch: Scheme)
      ensures Valid() && fresh(interfaces)
      ensures this.sch == sch && interfaces.Length == Size(sch)
      ensures forall i | 0 <= i < interfaces.Length :: interfaces[i] == Vacant
      ensures interfaceCount == 0 && !routerAdded && ifaces == {} && allocators == {}
    {
      this.sch := sch;
      interfaces := new Slot[Size(sch)](_ => Vacant);
      interfaceCount := 0;
      routerAdded := false;
      ifaces := {};
      allocators := {};
    }

    // Every slot for a peer is taken.
    ghost predicate IsFull()
      reads this, interfaces
    {
      forall i | 0 <= i < interfaces.Length && i != ROUTER_SLOT :: interfaces[i].Attached?
    }

    // The first free peer slot is taken; slot 1 never is.  A full table is refused
    // only when the next index is the one just past the end: the count is not
    // lowered when interfaces go, so after a removal and a re-use the next index of
    // a full table lies beyond, and the original reads past its table.
    method AddInterface(iface: Interface) returns (r: AddResult)
      requires Valid() && iface !in ifaces
      requires iface.allocator in allocators || iface.allocator.onFreeJobs == []
      modifies this, interfaces, iface, iface.allocator
      ensures Valid()
      ensures r.OutOfSpace? <==> old(IsFull()) && old(NextIndex(interfaceCount, routerAdded)) == Size(sch)
      ensures r.OutOfBounds? <==> old(IsFull()) && old(NextIndex(interfaceCount, routerAdded)) > Size(sch)
      ensures r.Added? ==>
        && r.slot < Size(sch) && r.slot != ROUTER_SLOT
        && old(interfaces[r.slot]) == Vacant
        && (forall i | 0 <= i < r.slot && i != ROUTER_SLOT :: old(interfaces[i]).Attached?)
        && interfaces[r.slot].Attached? && interfaces[r.slot].iface == iface
        && interfaces[..] == old(interfaces[..])[r.slot := interfaces[r.slot]]
        && IsOneHop(sch, r.labelOut)
        && CodeAt(sch, r.labelOut, NumberOf(r.slot), BitsUsedForNumber(sch, NumberOf(r.slot)))
        && SlotOf(NumberOf(r.slot)) == r.slot
      ensures !r.Added? ==> interfaces[..] == old(interfaces[..]) && allocators == old(allocators)
      ensures r.Added? ==> allocators == old(allocators) + {iface.allocator}
      ensures ifaces == old(ifaces) + (if r.Added? then {iface} else {})
      ensures interfaceCount == old(interfaceCount) + (if r.Added? then 1 else 0) && routerAdded == old(routerAdded)
    {
      hide NumberOf, SlotOf, Interfaces, BitsUsedForNumber, GetCompressed, CodeAt, IsOneHop, Prepend,
        PeerIsLinked, JobIsLinked;
      var ifIndex := interfaceCount;
      if ifIndex > 0 && !routerAdded {
        ifIndex := ifIndex + 1;
      } else if ifIndex == 1 {
        ifIndex := ifIndex - 1;
      }
      assert ifIndex == NextIndex(interfaceCount, routerAdded);
      var i := 0;
      while i < ifIndex
        invariant 0 <= i <= ifIndex == NextIndex(interfaceCount, routerAdded)
        invariant i <= interfaces.Length
        invariant forall k | 0 <= k < i && k != ROUTER_SLOT :: interfaces[k].Attached?
      {
        if i == interfaces.Length {
          return OutOfBounds;
        }
        if interfaces[i].Vacant? && i != ROUTER_SLOT {
          ifIndex := i;
          break;
        }
        i := i + 1;
      }
      if ifIndex == interfaces.Length {
        return OutOfSpace;
      }
      Attach(ifIndex, iface);
      interfaceCount := interfaceCount + 1;
      NumberIsSlot(ifIndex);
      HandedOutLabel(sch, ifIndex);
      var bits := BitsUsedForNumber(sch, NumberOf(ifIndex));
      r := Added(ifIndex, Prepend(1, bits, GetCompressed(sch, NumberOf(ifIndex), bits)));
    }

    // Fill in a vacant slot, register its removal with the interface's allocator and
    // point the interface at it.
    method Attach(slot: nat, iface: Interface)
      requires Valid() && iface !in ifaces
      requires iface.allocator in allocators || iface.allocator.onFreeJobs == []
      requires slot < interfaces.Length && slot != ROUTER_SLOT && interfaces[slot].Vacant?
      requires slot <= NextIndex(interfaceCount, routerAdded)
      modifies this`ifaces, this`allocators, interfaces, iface, iface.allocator
      ensures interfaces[slot].Attached? && interfaces[slot].iface == iface
      ensures interfaces[..] == old(interfaces[..])[slot := interfaces[slot]]
      ensures IsLinked()
      ensures ifaces == old(ifaces) + {iface} && allocators == old(allocators) + {iface.allocator}
      ensures forall i | 0 <= i < interfaces.Length && i != ROUTER_SLOT && interfaces[i].Attached? ::
                i <= NextIndex(interfaceCount, routerAdded)
    {
      var job := iface.allocator.OnFree(slot);
      interfaces[slot] := Attached(iface, job);
      iface.receiverContext := slot;
      ifaces := ifaces + {iface};
      allocators := allocators + {iface.allocator};
      forall a <- allocators, j <- a.onFreeJobs
        ensures JobIsLinked(a, j)
      {
        if j != job {
          assert j in old(a.onFreeJobs);
          assert old(JobIsLinked(a, j));
        }
      }
      forall i | 0 <= i < interfaces.Length
        ensures PeerIsLinked(i)
      {
        assert i != slot ==> old(PeerIsLinked(i));
      }
      assert forall a <- allocators :: Distinct(a.onFreeJobs);
    }

    // The router goes to slot 1 and is never removed by its allocator.
    method SetRouterInterface(iface: Interface)
      requires Valid() && iface !in ifaces
      modifies this, interfaces, iface
      ensures Valid() && routerAdded && interfaceCount == old(interfaceCount) + 1
      ensures ifaces == old(ifaces) + {iface} && allocators == old(allocators)
      ensures interfaces[..] == old(interfaces[..])[ROUTER_SLOT := Attached(iface, null)]
      ensures iface.receiverContext == ROUTER_SLOT
    {
      interfaces[ROUTER_SLOT] := Attached(iface, null);
      iface.receiverContext := ROUTER_SLOT;
      interfaceCount := interfaceCount + 1;
      routerAdded := true;
      ifaces := ifaces + {iface};
      forall i | 0 <= i < interfaces.Length
        ensures PeerIsLinked(i)
      {
        assert i != ROUTER_SLOT ==> old(PeerIsLinked(i));
      }
      forall a <- allocators, j <- a.onFreeJobs
        ensures JobIsLinked(a, j)
      {
        assert old(JobIsLinked(a, j));
      }
    }

    // Whether an interface is the one in the slot it points back to.
    ghost predicate IsAttached(iface: Interface)
      reads interfaces, iface
    {
      && iface.receiverContext < interfaces.Length
      && interfaces[iface.receiverContext].Attached?
      && interfaces[iface.receiverContext].iface == iface
    }

    // As IsLinked, except for slots whose removal jobs are off the lists.
    ghost predicate IsLinkedExcept(detached: set<nat>)
      reads this`ifaces, this`allocators, interfaces, ifaces, allocators
    {
      && interfaces.Length == Size(sch)
      && (forall i | 0 <= i < interfaces.Length && i !in detached :: PeerIsLinked(i))
      && (forall a <- allocators, job <- a.onFreeJobs :: JobIsLinked(a, job) && job.slot !in detached)
      && (forall a <- allocators :: Distinct(a.onFreeJobs))
      && IfacesAreDistinct(interfaces[..])
    }

    lemma LinkedIfacesAreDistinct()
      requires IsLinked()
      ensures IsLinkedExcept({})
    {
      forall i, j | 0 <= i < j < interfaces.Length && interfaces[i].Attached? && interfaces[j].Attached?
        ensures interfaces[i].iface != interfaces[j].iface
      {
        assert PeerIsLinked(i) && PeerIsLinked(j);
      }
    }

    method Detach(i: nat, ghost detached: set<nat>) returns (found: bool)
      requires IsLinkedExcept(detached) && i < interfaces.Length && interfaces[i].Attached?
      requires interfaces[i].iface.allocator in allocators
      requires i in detached ==> interfaces[i].onFree == null || interfaces[i].onFree.slot == i
      modifies interfaces[i].iface.allocator
      ensures found <==> i != ROUTER_SLOT && i !in detached
      ensures found ==> IsLinkedExcept(detached + {i})
    {
      ghost var job := interfaces[i].onFree;
      found := interfaces[i].iface.allocator.NotOnFree(interfaces[i].onFree);
      if i !in detached {
        assert old(PeerIsLinked(i));
        forall a <- allocators, j <- a.onFreeJobs
          ensures j in old(a.onFreeJobs) && JobIsLinked(a, j) && j.slot != i
        {
          assert old(JobIsLinked(a, j));
        }
      }
    }

    method Reattach(i: nat, ghost detached: set<nat>)
      requires IsLinkedExcept(detached) && i < interfaces.Length && i in detached && i != ROUTER_SLOT
      requires interfaces[i].Attached? && interfaces[i].iface in ifaces
      requires interfaces[i].iface.allocator in allocators
      modifies interfaces, interfaces[i].iface, interfaces[i].iface.allocator
      ensures IsLinkedExcept(detached - {i})
      ensures interfaces[i].Attached? && interfaces[i].iface == old(interfaces[i].iface)
      ensures interfaces[..] == old(interfaces[..])[i := interfaces[i]]
      ensures interfaces[i].iface.receiverContext == i
    {
      var iface := interfaces[i].iface;
      var job := iface.allocator.OnFree(i);
      interfaces[i] := Attached(iface, job);
      iface.receiverContext := i;
      forall k | 0 <= k < interfaces.Length && k !in detached - {i}
        ensures PeerIsLinked(k)
      {
        assert k != i ==> old(PeerIsLinked(k));
      }
      forall a <- allocators, j <- a.onFreeJobs
        ensures JobIsLinked(a, j) && j.slot !in detached - {i}
      {
        if j != job {
          assert old(JobIsLinked(a, j));
        }
      }
    }

    method ExchangeSlots(s1: nat, s2: nat)
      requires IsLinkedExcept({s1} + {s2}) && s1 < interfaces.Length && s2 < interfaces.Length
      modifies interfaces
      ensures IsLinkedExcept({s1} + {s2})
      ensures interfaces[..] == old(interfaces[..])[s1 := old(interfaces[s2])][s2 := old(interfaces[s1])]
    {
      var si3 := interfaces[s1];
      interfaces[s1] := interfaces[s2];
      interfaces[s2] := si3;
      forall i | 0 <= i < interfaces.Length && i !in {s1} + {s2}
        ensures PeerIsLinked(i)
      {
        assert old(PeerIsLinked(i));
      }
      forall a <- allocators, j <- a.onFreeJobs
        ensures JobIsLinked(a, j)
      {
        assert old(JobIsLinked(a, j));
      }
    }

    // Two peers change slots.  The asserts of the original, that both removal jobs
    // are found, hold for any two different peers, and only for those.
    method SwapInterfaces(if1: Interface, if2: Interface) returns (aborted: bool)
      requires Valid() && IsAttached(if1) && IsAttached(if2)
      requires if1 in ifaces && if2 in ifaces
      requires if1.allocator in allocators && if2.allocator in allocators
      modifies interfaces, if1, if2, if1.allocator, if2.allocator
      ensures aborted
              <==> if1 == if2 || old(if1.receiverContext) == ROUTER_SLOT || old(if2.receiverContext) == ROUTER_SLOT
      ensures !aborted ==>
        && Valid()
        && if1.receiverContext == old(if2.receiverContext) && if2.receiverContext == old(if1.receiverContext)
        && IsAttached(if1) && IsAttached(if2)
        && forall i | 0 <= i < interfaces.Length && i != if1.receiverContext && i != if2.receiverContext ::
             interfaces[i] == old(interfaces[i])
    {
      hide JobIsLinked, IfacesAreDistinct;
      var s1, s2 := if1.receiverContext, if2.receiverContext;
      assert PeerIsLinked(s1) && PeerIsLinked(s2);
      LinkedIfacesAreDistinct();
      var found := Detach(s1, {});
      if !found {
        return true;
      }
      found := Detach(s2, {s1});
      if !found {
        return true;
      }
      TradePlaces(s1, s2);
      aborted := false;
    }

    // Two peers whose removal jobs are off the lists change slots and register anew.
    method TradePlaces(s1: nat, s2: nat)
      requires IsLinkedExcept({s1} + {s2}) && s1 != s2 && s1 != ROUTER_SLOT && s2 != ROUTER_SLOT
      requires s1 < interfaces.Length && s2 < interfaces.Length && interfaces[s1].Attached? && interfaces[s2].Attached?
      requires interfaces[s1].iface in ifaces && interfaces[s1].iface.allocator in allocators
      requires interfaces[s2].iface in ifaces && interfaces[s2].iface.allocator in allocators
      modifies interfaces, interfaces[s1].iface, interfaces[s2].iface
      modifies interfaces[s1].iface.allocator, interfaces[s2].iface.allocator
      ensures IsLinked()
      ensures interfaces[s1].Attached? && interfaces[s1].iface == old(interfaces[s2].iface)
      ensures interfaces[s2].Attached? && interfaces[s2].iface == old(interfaces[s1].iface)
      ensures interfaces[s1].iface.receiverContext == s1 && interfaces[s2].iface.receiverContext == s2
      ensures forall i | 0 <= i < interfaces.Length && i != s1 && i != s2 :: interfaces[i] == old(interfaces[i])
    {
      hide PeerIsLinked, JobIsLinked;
      ExchangeSlots(s1, s2);
      Reattach(s1, {s1} + {s2});
      assert {s1} + {s2} - {s1} == {s2};
      Reattach(s2, {s2});
      assert {s2} - {s2} == {};
    }

    method RemoveInterface(slot: nat)
      requires slot < interfaces.Length
      modifies interfaces
      ensures interfaces[..] == old(interfaces[..])[slot := Vacant]
    {
      interfaces[slot] := Vacant;
    }

    // What freeing an allocator leaves of a slot.
    ghost predicate IsHeldBy(slot: Slot, i: nat, a: JobList) {
      i != ROUTER_SLOT && slot.Attached? && slot.iface.allocator == a
    }

    // Freeing an allocator runs its removal jobs: exactly the slots of interfaces
    // that it holds become vacant.
    method FreeAllocator(a: JobList)
      requires Valid() && a in allocators
      modifies this`allocators, interfaces
      ensures Valid() && allocators == old(allocators) - {a}
      ensures forall i | 0 <= i < interfaces.Length ::
        interfaces[i] == if old(IsHeldBy(interfaces[i], i, a)) then Vacant else old(interfaces[i])
    {
      var j := 0;
      while j < |a.onFreeJobs|
        invariant 0 <= j <= |a.onFreeJobs| && allocators == old(allocators)
        invariant forall i | 0 <= i < interfaces.Length ::
          interfaces[i] == old(interfaces[i]) || (old(IsHeldBy(interfaces[i], i, a)) && interfaces[i] == Vacant)
        invariant forall k | 0 <= k < j ::
          a.onFreeJobs[k].slot < interfaces.Length && interfaces[a.onFreeJobs[k].slot] == Vacant
      {
        assert old(JobIsLinked(a, a.onFreeJobs[j]));
        RemoveInterface(a.onFreeJobs[j].slot);
        j := j + 1;
      }
      allocators := allocators - {a};
      forall i | 0 <= i < interfaces.Length
        ensures PeerIsLinked(i)
        ensures interfaces[i] == if old(IsHeldBy(interfaces[i], i, a)) then Vacant else old(interfaces[i])
      {
        assert old(PeerIsLinked(i));
      }
      forall b <- allocators, job <- b.onFreeJobs
        ensures JobIsLinked(b, job)
      {
        assert b in old(allocators) && job in old(b.onFreeJobs);
        assert old(JobIsLinked(b, job));
      }
    }

    // The slots where the switch finds an interface, as interface numbers.
    ghost function OccupiedNumbers(): bv64 -> bool
      reads interfaces
    {
      var table := interfaces[..];
      number => IsInterface(sch, number) && IsOccupied(sch, table, number)
    }

    // Handles a packet from an attached interface.  sendFails is whether the interface
    // the packet is passed on to returns an error; isError whether the packet is itself
    // an error packet, which never causes another one.
    method ReceiveMessage(source: Interface, header: Header, length: nat, isError: bool, sendFails: bool)
      returns (action: Action)
      requires Valid() && IsAttached(source)
      modifies header
      ensures length < SWITCH_HEADER_SIZE ==> action == Dropped && header.labelBe == old(header.labelBe)
      ensures length >= SWITCH_HEADER_SIZE ==>
        IsInterface(sch, NumberOf(source.receiverContext)) &&
        IsHandled(header.host,
          Forward(sch, OccupiedNumbers(), NumberOf(source.receiverContext), old(header.Label())),
          old(header.labelBe), header.labelBe, isError, sendFails, action)
      ensures length >= SWITCH_HEADER_SIZE && action.PassedOn? ==>
        Forward(sch, OccupiedNumbers(), NumberOf(source.receiverContext), old(header.Label())).Sent?
      ensures action.PassedOn? ==> action.slot < interfaces.Length && interfaces[action.slot].Attached?
      ensures !action.PassedOn? ==> header.labelBe == old(header.labelBe)
      ensures length >= SWITCH_HEADER_SIZE && !action.PassedOn? ==>
        if isError then action.Dropped?
        else action.ErrorSent? && OnWire(header.host, action.labelBe) == Reverse(old(header.Label()))
    {
      hide *;
      SourceIsInRange(source);
      if length < SWITCH_HEADER_SIZE {
        return Dropped;
      }
      ghost var occupied, before := OccupiedNumbers(), header.labelBe;
      var lab := ToHost(header.host, header.labelBe);
      ToHostIsOnWire(header.host, before);
      LabelIs(header);
      var sourceIndex := NumberOf(source.receiverContext);
      var refused, why, destIndex, bits := Route(sch, sourceIndex, lab);
      if refused {
        ForwardFails(sch, occupied, sourceIndex, lab, why);
        RefusedIsHandled(header.host, why, before, isError, sendFails);
        return ErrorBack(isError, Reverse(header.labelBe));
      }
      ForwardPasses(sch, occupied, sourceIndex, lab, destIndex, bits);
      OccupiedMeans(destIndex);
      if !IsOccupied(sch, interfaces[..], destIndex) {
        RefusedIsHandled(header.host, NoInterface, before, isError, sendFails);
        return ErrorBack(isError, Reverse(header.labelBe));
      }
      var sourceCode := BitReverse64(GetCompressed(sch, sourceIndex, bits));
      var targetLabel := Or(Shr(lab, bits), sourceCode);
      ShiftIsTarget(lab, bits, GetCompressed(sch, sourceIndex, bits));
      header.labelBe := ToHost(header.host, targetLabel);
      if sendFails {
        header.labelBe := ToHost(header.host, lab);
        FailedIsHandled(header.host, destIndex, targetLabel, before, isError);
        return ErrorBack(isError, Reverse(header.labelBe));
      }
      SentIsHandled(header.host, destIndex, targetLabel, before, isError);
      NumberedSlots(destIndex);
      action := PassedOn(SlotOf(destIndex));
    }

    lemma LabelIs(header: Header)
      ensures header.Label() == OnWire(header.host, header.labelBe)
    {}

    lemma SourceIsInRange(source: Interface)
      requires Valid() && IsAttached(source)
      ensures source.receiverContext < 1024 && IsInterface(sch, NumberOf(source.receiverContext))
    {
      NumberInRange(sch, source.receiverContext);
    }

    // An interface number is occupied exactly when something is attached to its slot.
    lemma OccupiedIsAttached(slot: nat)
      requires slot < interfaces.Length == Size(sch)
      ensures NumberOf(slot) < 1024
      ensures OccupiedNumbers()(NumberOf(slot)) <==> interfaces[slot].Attached?
    {
      hide NumberOf, SlotOf, IsInterface;
      NumberIsSlot(slot);
      NumberInRange(sch, slot);
    }

    lemma NumberedSlots(number: bv64)
      requires IsInterface(sch, number) && IsOccupied(sch, interfaces[..], number) && number < 1024
      ensures SlotOf(number) < interfaces.Length && interfaces[SlotOf(number)].Attached?
    {
      hide SlotOf, IsInterface;
    }

    lemma OccupiedMeans(number: bv64)
      requires IsInterface(sch, number)
      ensures OccupiedNumbers()(number) == IsOccupied(sch, interfaces[..], number)
    {
      hide IsInterface, IsOccupied;
    }
  }

  method NewInterface() returns (iface: Interface)
    ensures fresh(iface) && fresh(iface.allocator) && iface.allocator.onFreeJobs == []
  {
    var allocator := new JobList();
    iface := new Interface(allocator);
  }

  // Attaches a new interface to the first vacant slot of a table.
  method AddNext(core: SwitchCore, n: nat)
    requires core.Valid() && 2 <= n < core.interfaces.Length
    requires forall i | 0 <= i < n && i != ROUTER_SLOT :: core.interfaces[i].Attached?
    requires core.interfaces[n].Vacant?
    modifies core, core.interfaces
    ensures core.Valid() && core.interfaces[n].Attached? && fresh(core.interfaces[n].iface.allocator)
    ensures core.interfaces[..] == old(core.interfaces[..])[n := core.interfaces[n]]
    ensures core.ifaces == old(core.ifaces) + {core.interfaces[n].iface}
    ensures core.allocators == old(core.allocators) + {core.interfaces[n].iface.allocator}
    ensures fresh(core.ifaces - old(core.ifaces)) && fresh(core.allocators - old(core.allocators))
    ensures core.interfaceCount == old(core.interfaceCount) + 1 && core.routerAdded == old(core.routerAdded)
  {
    hide SwitchCore.PeerIsLinked, SwitchCore.JobIsLinked, Distinct, CodeAt, IsOneHop, NumberOf, SlotOf, Interfaces;
    var iface := NewInterface();
    var added := core.AddInterface(iface);
  }

  // A new table is filled: the router, an interface in slot 0, and one in every other slot.
  method FilledTable(sch: Scheme) returns (core: SwitchCore, first: Interface)
    ensures fresh(core) && fresh(core.interfaces) && core.sch == sch && core.Valid() && core.IsFull()
    ensures core.routerAdded && core.interfaceCount == core.interfaces.Length == Size(sch)
    ensures core.interfaces[0].Attached? && core.interfaces[0].iface == first && first.allocator in core.allocators
    ensures forall i | 2 <= i < core.interfaces.Length :: core.interfaces[i].iface.allocator != first.allocator
    ensures fresh(core.ifaces) && fresh(core.allocators)
  {
    hide SwitchCore.Valid, SwitchCore.IsLinked, Size;
    core, first := StartedTable(sch);
    var n := 2;
    while n < core.interfaces.Length
      invariant 2 <= n <= core.interfaces.Length && core.sch == sch && core.Valid()
      invariant core.routerAdded && core.interfaceCount == n
      invariant core.interfaces[0].Attached? && core.interfaces[0].iface == first && first.allocator in core.allocators
      invariant forall i | 2 <= i < core.interfaces.Length :: core.interfaces[i].Attached? <==> i < n
      invariant forall i | 2 <= i < n :: core.interfaces[i].iface.allocator != first.allocator
      invariant fresh(core) && fresh(core.interfaces) && fresh(core.ifaces) && fresh(core.allocators)
    {
      AddNext(core, n);
      n := n + 1;
    }
  }

  method StartedTable(sch: Scheme) returns (core: SwitchCore, first: Interface)
    ensures fresh(core) && fresh(core.interfaces) && core.sch == sch && core.Valid()
    ensures core.interfaces.Length == Size(sch)
    ensures core.routerAdded && core.interfaceCount == 2
    ensures core.interfaces[0].Attached? && core.interfaces[0].iface == first && first.allocator in core.allocators
    ensures forall i | 2 <= i < core.interfaces.Length :: core.interfaces[i].Vacant?
    ensures fresh(core.ifaces) && fresh(core.allocators)
  {
    hide SwitchCore.PeerIsLinked, SwitchCore.JobIsLinked, Distinct, CodeAt, IsOneHop, NumberOf, SlotOf, Interfaces;
    core := new SwitchCore(sch);
    var iface := NewInterface();
    core.SetRouterInterface(iface);
    first := NewInterface();
    var added := core.AddInterface(first);
  }

  // A table is filled, one of its interfaces goes and another one takes its slot.  Before,
  // the full table was out of space; after, the search for a vacant slot runs past its end.
  method ReuseThenOverrun(sch: Scheme) returns (refused: AddResult, reused: AddResult, overrun: AddResult)
    ensures refused.OutOfSpace? && reused.Added? && overrun.OutOfBounds?
  {
    hide SwitchCore.Valid, SwitchCore.IsLinked, Size, CodeAt, IsOneHop, NumberOf, SlotOf;
    var core, first := FilledTable(sch);
    var iface := NewInterface();
    refused := core.AddInterface(iface);
    core.FreeAllocator(first.allocator);
    iface := NewInterface();
    reused := core.AddInterface(iface);
    iface := NewInterface();
    overrun := core.AddInterface(iface);
  }

  lemma WidthsAreSmall(sch: Scheme, number: bv64, lab: bv64)
    ensures IsWidth(sch, BitsUsedForNumber(sch, number)) && BitsUsedForNumber(sch, number) <= 64
    ensures IsWidth(sch, BitsUsedForLabel(sch, lab)) && BitsUsedForLabel(sch, lab) <= 64
  {}

  lemma DestinationIsInRange(sch: Scheme, lab: bv64)
    ensures var dest := GetDecompressed(sch, lab, BitsUsedForLabel(sch, lab));
            IsInterface(sch, dest) && (dest == ROUTER ==> BitsUsedForLabel(sch, lab) == 4)
  {
    hide GetDecompressed, BitsUsedForLabel, Interfaces, BitsUsedForNumber, GetCompressed, Low;
    EveryLabelDecodes(sch, lab);
  }

  // The checks of receiveMessage in their order.  The last branch, for a router code
  // wider than the destination code, cannot be reached.
  method Route(sch: Scheme, sourceIndex: bv64, lab: bv64)
    returns (refused: bool, why: Refusal, destIndex: bv64, bits: nat)
    requires IsInterface(sch, sourceIndex)
    ensures Decide(sch, sourceIndex, lab) == if refused then Fail(why) else Pass(destIndex, bits)
  {
    hide GetDecompressed, EndsInRouterCode, HasOnlyDiscriminator, Interfaces, GetCompressed, BitsUsedForLabel,
      BitsUsedForNumber;
    bits := BitsUsedForLabel(sch, lab);
    destIndex := GetDecompressed(sch, lab, bits);
    var sourceBits := BitsUsedForNumber(sch, sourceIndex);
    WidthsAreSmall(sch, sourceIndex, lab);
    DestinationIsInRange(sch, lab);
    assert IsInterface(sch, destIndex);
    refused, why := false, NoInterface;
    if destIndex == ROUTER {
      if !EndsInRouterCode(lab) {
        refused, why := true, WrongDiscriminator;
        return;
      }
      assert bits == 4;
    }
    if sourceBits > bits {
      if destIndex == ROUTER {
        if !HasOnlyDiscriminator(lab, sourceBits) {
          refused, why := true, NoReturnPath;
          return;
        }
        bits := sourceBits;
      } else if sourceIndex == ROUTER {
        RouterCodeIsNarrow(sch, lab);
        assert false;
      } else {
        refused, why := true, SourceTooLarge;
      }
    }
  }

  predicate IsOccupied(sch: Scheme, table: seq<Slot>, number: bv64)
    requires IsInterface(sch, number)
  {
    SlotIsNumber(sch, number);
    SlotOf(number) < |table| && table[SlotOf(number)].Attached?
  }

  // What Forward is, case by case.
  lemma ForwardFails(sch: Scheme, occupied: bv64 -> bool, source: bv64, lab: bv64, why: Refusal)
    requires IsInterface(sch, source) && Decide(sch, source, lab) == Fail(why)
    ensures Forward(sch, occupied, source, lab) == Returned(why, Reverse(lab))
  {
    hide Decide, Reverse;
  }

  lemma ForwardPasses(sch: Scheme, occupied: bv64 -> bool, source: bv64, lab: bv64, dest: bv64, bits: nat)
    requires IsInterface(sch, source) && Decide(sch, source, lab) == Pass(dest, bits)
    ensures bits <= 64 && dest < 1024
    ensures IsInterface(sch, dest)
    ensures Forward(sch, occupied, source, lab) ==
      if !occupied(dest) then Returned(NoInterface, Reverse(lab))
      else Sent(dest, Shift(lab, bits, GetCompressed(sch, source, bits)))
  {
    hide Decide, Shift, Reverse, GetCompressed;
    PassMeans(sch, source, lab, dest, bits);
  }

  lemma ShiftIsTarget(lab: bv64, bits: nat, code: bv64)
    requires bits <= 64
    ensures Or(Shr(lab, bits), Reverse(code)) == Shift(lab, bits, code)
  {
    hide Or, Shr, Reverse;
  }

  // The size of the switch header: a label and 32 bits of priority and type.
  const SWITCH_HEADER_SIZE: nat := 12

  // Conversion between big-endian and host order; the same in both directions.
  function ToHost(host: Host, x: bv64): bv64 {
    match host case LittleEndian => SwapBytes(x) case BigEndian => x
  }

  // What is read from a header is the number that stands on the wire, and what is put in
  // stands there.
  lemma ToHostIsOnWire(host: Host, x: bv64)
    ensures ToHost(host, x) == OnWire(host, x) && OnWire(host, ToHost(host, x)) == x
    ensures ToHost(host, ToHost(host, x)) == x
  {
    hide SwapBytes, OnWire;
    SwapIsInvolution(x);
    OnWireIs(host, x);
    OnWireIs(host, ToHost(host, x));
  }

  // Reversing the word in the header reverses the label on the wire.
  lemma ErrorLabelIsReversed(host: Host, labelBe: bv64)
    ensures OnWire(host, Reverse(labelBe)) == Reverse(OnWire(host, labelBe))
  {
    hide SwapBytes, Reverse, OnWire;
    ReverseIsEndianSafe(labelBe);
    OnWireIs(host, labelBe);
    OnWireIs(host, Reverse(labelBe));
  }

  class Header {
    const host: Host
    var labelBe: bv64

    constructor (host: Host, labelBe: bv64)
      ensures this.host == host && this.labelBe == labelBe
    {
      this.host, this.labelBe := host, labelBe;
    }

    // The label that stands on the wire.
    ghost function Label(): bv64
      reads this
    {
      OnWire(host, labelBe)
    }
  }

  // What becomes of a packet: passed on through a slot, dropped, or answered with an
  // error packet that carries this label in big-endian order.
  datatype Action = PassedOn(slot: nat) | Dropped | ErrorSent(labelBe: bv64)

  function ErrorBack(isError: bool, labelBe: bv64): Action {
    if isError then Dropped else ErrorSent(labelBe)
  }

  // An error packet is dropped, and any other answered with this label on the wire.
  predicate IsAnswered(host: Host, isError: bool, errorLabel: bv64, action: Action) {
    if isError then action.Dropped? else action.ErrorSent? && OnWire(host, action.labelBe) == errorLabel
  }

  // How the packet and its header are left, given how its label is switched: the new
  // label in the header, or the header unchanged and an error label sent back.
  predicate IsHandled(host: Host, switching: Switching, before: bv64, after: bv64,
      isError: bool, sendFails: bool, action: Action)
  {
    match switching
    case Sent(dest, sent) =>
      if sendFails then after == before && IsAnswered(host, isError, Reverse(OnWire(host, before)), action)
      else OnWire(host, after) == sent && dest < 1024 && action == PassedOn(SlotOf(dest))
    case Returned(why, errorLabel) =>
      after == before && IsAnswered(host, isError, errorLabel, action)
  }

  lemma RefusedIsHandled(host: Host, why: Refusal, before: bv64, isError: bool, sendFails: bool)
    ensures IsHandled(host, Returned(why, Reverse(OnWire(host, before))), before, before, isError, sendFails,
      ErrorBack(isError, Reverse(before)))
    ensures var action := ErrorBack(isError, Reverse(before));
            if isError then action.Dropped?
            else action.ErrorSent? && OnWire(host, action.labelBe) == Reverse(OnWire(host, before))
  {
    hide Reverse, OnWire;
    ErrorLabelIsReversed(host, before);
  }

  lemma FailedIsHandled(host: Host, dest: bv64, sent: bv64, before: bv64, isError: bool)
    ensures IsHandled(host, Sent(dest, sent), before, before, isError, true, ErrorBack(isError, Reverse(before)))
    ensures var action := ErrorBack(isError, Reverse(before));
            if isError then action.Dropped?
            else action.ErrorSent? && OnWire(host, action.labelBe) == Reverse(OnWire(host, before))
  {
    hide Reverse, OnWire, SlotOf;
    ErrorLabelIsReversed(host, before);
  }

  lemma SentIsHandled(host: Host, dest: bv64, sent: bv64, before: bv64, isError: bool)
    requires dest < 1024
    ensures IsHandled(host, Sent(dest, sent), before, ToHost(host, sent), isError, false, PassedOn(SlotOf(dest)))
  {
    hide Reverse, ToHost, SlotOf, OnWire;
    ToHostIsOnWire(host, sent);
  }
}
