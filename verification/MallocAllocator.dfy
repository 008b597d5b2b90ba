// Memory allocators in a family tree that share one count of the space that is left:
// memory/MallocAllocator.c.

module MallocAllocator {
  import opened AllocatorTree

  // sizeof of the structures on a 64-bit host.
  const ALLOCATION_SIZE: nat := 16
  const FIRST_CTX_SIZE: nat := 160
  const ALLOCATOR_SIZE: nat := 72
  const JOB_SIZE: nat := 24

  // The block that holds an allocator itself.
  const OWN_BLOCK: nat := ALLOCATION_SIZE + FIRST_CTX_SIZE

  const NULL: nat := 0

  // A block from the system's malloc; the size includes its header.
  datatype Block = Block(address: nat, size: nat)

  function Bytes(blocks: seq<Block>): nat {
    if blocks == [] then 0 else blocks[0].size + Bytes(blocks[1..])
  }

  lemma BytesOfOne(b: Block)
    ensures Bytes([b]) == b.size
  {}

  lemma {:induction false} BytesOfChanged(blocks: seq<Block>, i: nat, b: Block)
    requires i < |blocks|
    ensures Bytes(blocks[i := b]) == Bytes(blocks) - blocks[i].size + b.size
  {
    if i == 0 {
      assert blocks[i := b][1..] == blocks[1..];
    } else {
      assert blocks[i := b][1..] == blocks[1..][i - 1 := b];
      BytesOfChanged(blocks[1..], i - 1, b);
    }
  }

  // Where the block with this address is in a list, or its length if it is not.
  function IndexOf(blocks: seq<Block>, address: nat): (i: nat)
    ensures i <= |blocks|
  {
    if blocks == [] || blocks[0].address == address then 0 else 1 + IndexOf(blocks[1..], address)
  }

  lemma {:induction false} IndexIsFirst(blocks: seq<Block>, address: nat, i: nat)
    requires i <= |blocks|
    requires forall j | 0 <= j < i :: blocks[j].address != address
    requires i < |blocks| ==> blocks[i].address == address
    ensures IndexOf(blocks, address) == i
  {
    if i > 0 {
      assert forall j | 0 <= j < i - 1 :: blocks[1..][j] == blocks[j + 1];
      IndexIsFirst(blocks[1..], address, i - 1);
    }
  }

  // The bytes that a family holds.
  ghost function Total(live: map<Allocator, nat>): nat {
    if live.Keys == {} then 0 else
      var a :| a in live;
      live[a] + Total(live - {a})
  }

  lemma {:induction false} TotalWithout(live: map<Allocator, nat>, a: Allocator)
    requires a in live
    ensures Total(live) == live[a] + Total(live - {a})
  {
    var b :| b in live && Total(live) == live[b] + Total(live - {b});
    if a != b {
      TotalWithout(live - {b}, a);
      TotalWithout(live - {a}, b);
      assert live - {a} - {b} == live - {b} - {a};
    }
  }

  lemma TotalOfOne(a: Allocator, bytes: nat)
    ensures Total(map[a := bytes]) == bytes
  {
    TotalWithout(map[a := bytes], a);
  }

  lemma TotalChanged(live: map<Allocator, nat>, a: Allocator, bytes: nat)
    ensures Total(live[a := bytes]) == bytes + Total(live) - if a in live then live[a] else 0
  {
    TotalWithout(live[a := bytes], a);
    if a in live {
      TotalWithout(live, a);
      assert live[a := bytes] - {a} == live - {a};
    } else {
      assert live[a := bytes] - {a} == live;
    }
  }

  // The siblings around a child in a list: its predecessor, which for the first is
  // the parent, and its successor.
  ghost function Before(parent: Allocator, kids: seq<Allocator>, a: Allocator): Allocator? {
    if kids == [] then null else if kids[0] == a then parent else Before(kids[0], kids[1..], a)
  }

  ghost function Next(kids: seq<Allocator>, a: Allocator): Allocator? {
    if kids == [] then null else if kids[0] == a then First(kids[1..]) else Next(kids[1..], a)
  }

  ghost function First(kids: seq<Allocator>): Allocator? {
    if kids == [] then null else kids[0]
  }

  lemma {:induction false} LinksAreListed(parent: Allocator, kids: seq<Allocator>, k: Allocator)
    ensures Next(kids, k) == null || (Next(kids, k) in kids && (NoTwice(kids) ==> Next(kids, k) != k))
    ensures k in kids ==> Before(parent, kids, k) == parent || Before(parent, kids, k) in kids
    ensures k in kids && NoTwice(kids) && parent != k ==> Before(parent, kids, k) != k
  {
    if kids != [] {
      LinksAreListed(kids[0], kids[1..], k);
    }
  }

  lemma FirstWithout(kids: seq<Allocator>, a: Allocator)
    requires NoTwice(kids) && a in kids
    ensures First(Without(kids, a)) == if First(kids) == a then Next(kids, a) else First(kids)
  {
    if kids[0] == a {
      WithoutAbsent(kids[1..], a);
    }
  }

  // A list of siblings with one of them taken out: its neighbours are linked to each
  // other, and all other links are as they were.
  lemma {:induction false} LinksWithout(parent: Allocator, kids: seq<Allocator>, a: Allocator, k: Allocator)
    requires NoTwice(kids) && parent !in kids && a in kids && k in kids && k != a
    ensures Next(Without(kids, a), k) == if Next(kids, k) == a then Next(kids, a) else Next(kids, k)
    ensures Before(parent, Without(kids, a), k) ==
      if Before(parent, kids, k) == a then Before(parent, kids, a) else Before(parent, kids, k)
  {
    var rest := kids[1..];
    assert kids[0] !in rest;
    LinksAreListed(a, rest, k);
    if kids[0] == a {
      WithoutAbsent(rest, a);
      LinksAreListed(rest[0], rest[1..], k);
    } else if kids[0] == k {
      FirstWithout(rest, a);
    } else {
      LinksWithout(kids[0], rest, a, k);
    }
  }

  // The neighbours of a child point back to it, and nothing else in the list does.
  lemma {:induction false} NeighboursPointBack(parent: Allocator, kids: seq<Allocator>, a: Allocator, k: Allocator)
    requires NoTwice(kids) && parent !in kids && a in kids && k in kids
    ensures Next(kids, k) == a <==> Before(parent, kids, a) == k
    ensures Before(parent, kids, k) == a <==> Next(kids, a) == k
    ensures Before(parent, kids, a) == parent <==> First(kids) == a
  {
    var rest := kids[1..];
    assert kids[0] !in rest;
    LinksAreListed(kids[0], rest, a);
    LinksAreListed(kids[0], rest, k);
    if kids[0] != a && kids[0] != k {
      NeighboursPointBack(kids[0], rest, a, k);
    } else if rest != [] {
      LinksAreListed(rest[0], rest[1..], a);
      LinksAreListed(rest[0], rest[1..], k);
    }
  }

  // Taking a childless allocator out of the tree changes the links around it, and
  // no others.
  lemma PrunedFirst(s: Shape<Allocator>, root: Allocator, a: Allocator, k: Allocator)
    requires IsTree(s, root) && a in s.up && k in s.kids && k !in s.below[a]
    ensures s.up[a] in s.kids && a in s.kids[s.up[a]] && s.up[a] !in s.kids[s.up[a]]
    ensures var siblings := s.kids[s.up[a]];
            First(Without(s.kids[k], a)) ==
              if k == s.up[a] && First(siblings) == a then Next(siblings, a) else First(s.kids[k])
  {
    ParentIsAbove(s, root, a);
    assert ListsKids(s, k);
    if a in s.kids[k] {
      FirstWithout(s.kids[k], a);
    } else {
      WithoutAbsent(s.kids[k], a);
    }
  }

  lemma ParentIsAbove(s: Shape<Allocator>, root: Allocator, a: Allocator)
    requires IsTree(s, root) && a in s.up
    ensures s.up[a] in s.kids && a in s.kids[s.up[a]] && s.up[a] !in s.kids[s.up[a]]
    ensures NoTwice(s.kids[s.up[a]]) && forall c <- s.kids[s.up[a]] :: c in s.up && s.up[c] == s.up[a]
  {
    var p := s.up[a];
    assert HasParent(s, a) && ListsKids(s, p);
    Inside(s, root, p);
    assert p in s.up ==> HasParent(s, p);
  }

  lemma AroundIt(s: Shape<Allocator>, root: Allocator, a: Allocator)
    requires IsTree(s, root) && a in s.up
    ensures var p := s.up[a];
            p in s.kids &&
            var siblings := s.kids[p];
            var last, next := Before(p, siblings, a), Next(siblings, a);
            && last != null && last in s.kids && last != a
            && (First(siblings) == a
                ==> last == p && (p in s.up ==> s.up[p] in s.kids && Next(s.kids[s.up[p]], p) != a))
            && (First(siblings) != a ==> last in s.up && s.up[last] == p && Next(siblings, last) == a && last != p)
            && (next != null ==> next in s.kids && next in s.up && next != a)
  {
    var p := s.up[a];
    ParentIsAbove(s, root, a);
    LinksAreListed(p, s.kids[p], a);
    NeighboursPointBack(p, s.kids[p], a, a);
    var last := Before(p, s.kids[p], a);
    if last != p {
      NeighboursPointBack(p, s.kids[p], a, last);
    } else if p in s.up {
      ParentIsAbove(s, root, p);
      LinksAreListed(s.up[p], s.kids[s.up[p]], p);
    }
    KidsAreNodes(s, root, p);
  }

  // Only the one before it leads on to an allocator.
  lemma OnlyOnePoints(s: Shape<Allocator>, root: Allocator, a: Allocator, k: Allocator)
    requires IsTree(s, root) && a in s.kids && k in s.kids
    ensures First(s.kids[k]) == a ==> a in s.up && s.up[a] == k
    ensures k in s.up && s.up[k] in s.kids && Next(s.kids[s.up[k]], k) == a ==>
      a in s.up && s.up[a] == s.up[k] && Before(s.up[a], s.kids[s.up[a]], a) == k
    ensures a in s.up && s.up[a] in s.kids && First(s.kids[s.up[a]]) == a
            ==> Before(s.up[a], s.kids[s.up[a]], a) == s.up[a]
  {
    assert ListsKids(s, k);
    if k in s.up {
      ParentIsAbove(s, root, k);
      LinksAreListed(s.up[k], s.kids[s.up[k]], k);
      if a in s.kids[s.up[k]] {
        NeighboursPointBack(s.up[k], s.kids[s.up[k]], a, k);
      }
    }
  }

  lemma KidsAreNodes(s: Shape<Allocator>, root: Allocator, p: Allocator)
    requires IsTree(s, root) && p in s.kids
    ensures forall c <- s.kids[p] :: c in s.kids
    ensures p in s.up ==> s.up[p] != p
  {
    assert ListsKids(s, p);
    assert p in s.up ==> HasParent(s, p);
    Inside(s, root, p);
  }

  lemma PrunedSiblings(s: Shape<Allocator>, root: Allocator, a: Allocator, k: Allocator)
    requires IsTree(s, root) && a in s.up && k in s.up && k != a
    ensures s.up[a] in s.kids && s.up[k] in s.kids
    ensures var p, q := s.up[a], s.up[k];
            var siblings := s.kids[p];
            && Next(Without(s.kids[q], a), k) ==
                 (if First(siblings) != a && Before(p, siblings, a) == k then Next(siblings, a) else Next(s.kids[q], k))
            && Before(q, Without(s.kids[q], a), k) ==
                 (if Next(siblings, a) == k then Before(p, siblings, a) else Before(q, s.kids[q], k))
  {
    var p, q := s.up[a], s.up[k];
    ParentIsAbove(s, root, a);
    ParentIsAbove(s, root, k);
    LinksAreListed(p, s.kids[p], a);
    NeighboursPointBack(p, s.kids[p], a, a);
    if p == q {
      LinksWithout(p, s.kids[p], a, k);
      NeighboursPointBack(p, s.kids[p], a, k);
    } else {
      WithoutAbsent(s.kids[q], a);
    }
  }

  // Putting a child in front of its siblings.
  lemma GrownSiblings(parent: Allocator, kids: seq<Allocator>, child: Allocator, k: Allocator)
    requires NoTwice(kids) && child !in kids && k in kids
    ensures Next([child] + kids, k) == Next(kids, k)
    ensures Before(parent, [child] + kids, k) == if First(kids) == k then child else Before(parent, kids, k)
  {
    assert ([child] + kids)[1..] == kids;
    BeforeIsEarlier(kids, parent, k);
  }

  lemma HeadLinks(parent: Allocator, kids: seq<Allocator>, child: Allocator)
    ensures Before(parent, [child] + kids, child) == parent
    ensures Next([child] + kids, child) == First(kids)
  {
    assert ([child] + kids)[1..] == kids;
  }

  lemma GrownLinks(s: Shape<Allocator>, root: Allocator, parent: Allocator, child: Allocator, k: Allocator)
    requires IsTree(s, root) && parent in s.kids && child !in s.kids && k in s.kids
    ensures var t := Grow(s, parent, child);
            && k in t.kids && (k in t.up <==> k in s.up)
            && First(t.kids[k]) == (if k == parent then child else First(s.kids[k]))
            && (k !in s.up ==> First(s.kids[parent]) != k)
    ensures k in s.up ==>
      var t, p := Grow(s, parent, child), s.up[k];
      && t.up[k] == p && p in s.kids && p in t.kids
      && Next(t.kids[p], k) == Next(s.kids[p], k)
      && Before(p, t.kids[p], k) == if First(s.kids[parent]) == k then child else Before(p, s.kids[p], k)
  {
    assert ListsKids(s, parent);
    if k in s.up {
      ParentIsAbove(s, root, k);
      assert child !in s.up;
      if s.up[k] == parent {
        GrownSiblings(parent, s.kids[parent], child, k);
      }
    }
  }

  lemma BeforeIsEarlier(kids: seq<Allocator>, parent: Allocator, k: Allocator)
    requires kids != []
    ensures kids[0] != k ==> forall p :: Before(p, kids, k) == Before(parent, kids, k)
  {}

  ghost predicate AreLinks(s: Shape<Allocator>, a: Allocator, first: Allocator?, last: Allocator?, next: Allocator?) {
    && a in s.kids
    && first == First(s.kids[a])
    && if a in s.up && s.up[a] in s.kids then
         last == Before(s.up[a], s.kids[s.up[a]], a) && next == Next(s.kids[s.up[a]], a)
       else last == null && next == null
  }

  // When every pointer to an allocator is replaced by the one it has itself, the
  // links of the others are those of the tree without it.
  lemma PassedOver(s: Shape<Allocator>, root: Allocator, a: Allocator, last: Allocator?, next: Allocator?,
      k: Allocator, itsFirst: Allocator?, itsLast: Allocator?, itsNext: Allocator?)
    requires IsTree(s, root) && a in s.kids && s.kids[a] == [] && k in s.kids && k != a && a in s.below
    requires AreLinks(s, a, null, last, next) && AreLinks(s, k, itsFirst, itsLast, itsNext)
    ensures AreLinks(Prune(s, a), k, if itsFirst == a then next else itsFirst,
      if k == next then last else itsLast, if itsNext == a then next else itsNext)
  {
    hide IsTree, Prune;
    PruneChildless(s, root, a);
    if a in s.up {
      PrunedFirst(s, root, a, k);
      AroundIt(s, root, a);
      OnlyOnePoints(s, root, a, k);
      if k in s.up {
        PrunedSiblings(s, root, a, k);
      }
    }
  }

  lemma LiveWithoutBoth(live: map<Allocator, nat>, fewer: set<Allocator>, more: set<Allocator>)
    requires fewer <= more
    ensures (live - fewer) - (more - fewer) == live - more
  {}

  // The on-free jobs of these allocators, in a row.
  ghost function JobsOf(them: seq<Allocator>): seq<nat>
    reads them`onFree
  {
    if them == [] then [] else them[0].onFree + JobsOf(them[1..])
  }

  lemma {:induction false} JobsOfBoth(them: seq<Allocator>, more: seq<Allocator>)
    ensures JobsOf(them + more) == JobsOf(them) + JobsOf(more)
  {
    if them == [] {
      assert them + more == more;
    } else {
      JobsOfBoth(them[1..], more);
      assert (them + more)[1..] == them[1..] + more;
    }
  }

  // What has run once these jobs have run too.
  ghost function Then(ran: seq<nat>, jobs: seq<nat>): seq<nat> {
    ran + jobs
  }

  lemma ThenBoth(ran: seq<nat>, jobs: seq<nat>, more: seq<nat>)
    ensures Then(Then(ran, jobs), more) == Then(ran, jobs + more)
  {}

  lemma ThenIs(ran: seq<nat>, jobs: seq<nat>)
    ensures Then(ran, jobs) == ran + jobs
  {}

  lemma ThenNone(ran: seq<nat>)
    ensures Then(ran, []) == ran
  {}

  lemma TreeIsBelow(s: Shape<Allocator>, root: Allocator)
    requires IsTree(s, root)
    ensures s.below.Keys == s.kids.Keys && s.up.Keys <= s.kids.Keys
  {}

  // The space that all allocators of a family share.
  class Space {
    var spaceAvailable: int
    ghost var capacity: int              // the space there was before any was taken
    ghost var root: Allocator?
    ghost var shape: Shape<Allocator>
    ghost var live: map<Allocator, nat>  // the bytes that every allocator holds
    var ran: seq<nat>                    // the on-free jobs that have run

    constructor (spaceAvailable: int)
      ensures this.spaceAvailable == spaceAvailable == capacity && root == null
      ensures shape == Shape(map[], map[], map[]) && live == map[]
    {
      this.spaceAvailable := spaceAvailable;
      capacity := spaceAvailable;
      root := null;
      shape := Shape(map[], map[], map[]);
      live := map[];
      ran := [];
    }

    // An allocator's pointers are those of its place in the tree.
    ghost predicate IsLinked(a: Allocator)
      reads this`shape, a`firstChild, a`lastSibling, a`nextSibling
    {
      AreLinks(shape, a, a.firstChild, a.lastSibling, a.nextSibling)
    }

    ghost predicate IsCounted(a: Allocator)
      reads this`live, this`capacity, a`space, a`maxSpace, a`allocations
    {
      && a.space == this && a.maxSpace == capacity - OWN_BLOCK
      && a in live && live[a] == Bytes(a.allocations)
    }

    ghost predicate AllLinked()
      reads this`shape, shape.kids.Keys`firstChild, shape.kids.Keys`lastSibling, shape.kids.Keys`nextSibling
    {
      forall a <- shape.kids :: IsLinked(a)
    }

    ghost predicate AllCounted()
      reads this`live, this`capacity, live.Keys`space, live.Keys`maxSpace, live.Keys`allocations
    {
      forall a <- live :: IsCounted(a)
    }

    ghost predicate HasTree()
      reads this`root, this`shape
    {
      root != null && IsTree(shape, root)
    }

    // What is available and what is held add up to what there was.
    ghost predicate IsConserved()
      reads this`spaceAvailable, this`capacity, this`live, this`shape
    {
      live.Keys == shape.kids.Keys && spaceAvailable + Total(live) == capacity && spaceAvailable >= 0
    }

    ghost predicate Valid()
      reads this`root, this`shape, this`live, this`capacity, this`spaceAvailable
      reads shape.kids.Keys`firstChild, shape.kids.Keys`lastSibling, shape.kids.Keys`nextSibling
      reads live.Keys`space, live.Keys`maxSpace, live.Keys`allocations
    {
      HasTree() && AllLinked() && AllCounted() && IsConserved()
    }

    // Put a solitary allocator in the tree as the first child of another.
    method LinkFirst(parent: Allocator, child: Allocator)
      requires HasTree() && AllLinked() && parent in shape.kids && child !in shape.kids && child.firstChild == null
      modifies this`shape, parent`firstChild, child`lastSibling, child`nextSibling
      modifies (if parent.firstChild == null then {} else {parent.firstChild})`lastSibling
      ensures HasTree() && AllLinked() && shape == Grow(old(shape), parent, child)
      ensures shape.kids.Keys == old(shape.kids.Keys) + {child}
    {
      hide IsTree, Grow;
      GrowKeepsTree(shape, root, parent, child);
      GrowValues(shape, root, parent, child);
      assert IsLinked(parent);
      child.lastSibling := parent;
      child.nextSibling := parent.firstChild;
      if parent.firstChild != null {
        parent.firstChild.lastSibling := child;
      }
      parent.firstChild := child;
      shape := Grow(shape, parent, child);
      forall k <- shape.kids
        ensures IsLinked(k)
      {
        if k == child {
          HeadLinks(parent, old(shape.kids[parent]), child);
        } else {
          assert old(IsLinked(k));
          GrownLinks(old(shape), root, parent, child, k);
        }
      }
    }

    lemma MemberIsCounted(a: Allocator)
      requires AllCounted() && a in live
      ensures a.space == this && a.maxSpace == capacity - OWN_BLOCK && live[a] == Bytes(a.allocations)
    {
      assert IsCounted(a);
    }

    // Account for an allocator that joins.
    method CountIn(child: Allocator)
      requires AllCounted() && child !in live && child.space == this && child.maxSpace == capacity - OWN_BLOCK
      modifies this`live
      ensures AllCounted() && live == old(live)[child := Bytes(child.allocations)]
      ensures Total(live) == old(Total(live)) + Bytes(child.allocations)
    {
      hide Total, Bytes;
      TotalChanged(live, child, Bytes(child.allocations));
      live := live[child := Bytes(child.allocations)];
      forall a <- live
        ensures IsCounted(a)
      {
        assert a != child ==> old(IsCounted(a));
      }
    }

    // Take an allocator out of the list of its siblings.  The failure of the original,
    // a last sibling that does not refer to the allocator, cannot happen.
    method Bypass(a: Allocator)
      requires HasTree() && AllLinked() && a in shape.kids
      modifies shape.kids.Keys`firstChild, shape.kids.Keys`lastSibling, shape.kids.Keys`nextSibling
      ensures forall k <- shape.kids :: k.firstChild == old(if k.firstChild == a then a.nextSibling else k.firstChild)
      ensures forall k <- shape.kids ::
                k.nextSibling == old(if k.nextSibling == a then a.nextSibling else k.nextSibling)
      ensures forall k <- shape.kids ::
                k.lastSibling == old(if k == a.nextSibling then a.lastSibling else k.lastSibling)
    {
      hide HasTree;
      assert IsLinked(a);
      if a in shape.up {
        NeighboursAreLinked(a);
      }
      OnlyNeighboursPoint(a);
      if a.lastSibling != null && a.lastSibling.nextSibling == a {
        a.lastSibling.nextSibling := a.nextSibling;
      } else if a.lastSibling != null && a.lastSibling.firstChild == a {
        a.lastSibling.firstChild := a.nextSibling;
      } else if a.lastSibling != null {
        assert false;
      }
      if a.nextSibling != null {
        a.nextSibling.lastSibling := a.lastSibling;
      }
    }

    lemma OnlyNeighboursPoint(a: Allocator)
      requires HasTree() && AllLinked() && a in shape.kids
      ensures forall k <- shape.kids :: k.firstChild == a || k.nextSibling == a ==> k == a.lastSibling
    {
      hide IsTree;
      assert IsLinked(a);
      forall k <- shape.kids
        ensures k.firstChild == a || k.nextSibling == a ==> k == a.lastSibling
      {
        assert IsLinked(k);
        OnlyOnePoints(shape, root, a, k);
      }
    }

    // Take a childless allocator out of the tree.
    method Unlink(a: Allocator)
      requires HasTree() && AllLinked() && a in shape.kids && shape.kids[a] == []
      modifies this`shape
      modifies shape.kids.Keys`firstChild, shape.kids.Keys`lastSibling, shape.kids.Keys`nextSibling
      ensures HasTree() && AllLinked() && shape == Prune(old(shape), a)
    {
      hide IsTree, Prune;
      PruneKeepsTree(shape, root, a);
      PruneChildless(shape, root, a);
      Bypass(a);
      assert old(IsLinked(a)) && forall k <- shape.kids :: old(IsLinked(k));
      shape := Prune(shape, a);
      forall k <- shape.kids
        ensures IsLinked(k)
      {
        PassedOver(old(shape), root, a, old(a.lastSibling), old(a.nextSibling),
          k, old(k.firstChild), old(k.lastSibling), old(k.nextSibling));
      }
    }

    // What the pointers around an allocator say.
    lemma NeighboursAreLinked(a: Allocator)
      requires HasTree() && AllLinked() && a in shape.up && a in shape.kids
      ensures var p := shape.up[a];
              p in shape.kids &&
              var siblings := shape.kids[p];
              && a.lastSibling == Before(p, siblings, a) && a.nextSibling == Next(siblings, a)
              && a.lastSibling != null && a.lastSibling in shape.kids && a.lastSibling != a
              && (First(siblings) == a ==> a.lastSibling == p && p.firstChild == a && p.nextSibling != a)
              && (First(siblings) != a ==> a.lastSibling.nextSibling == a && a.lastSibling.firstChild != a)
              && (a.nextSibling != null
                  ==> a.nextSibling in shape.kids && a.nextSibling in shape.up && a.nextSibling != a)
    {
      hide IsTree;
      AroundIt(shape, root, a);
      assert IsLinked(a) && IsLinked(shape.up[a]);
      var last := Before(shape.up[a], shape.kids[shape.up[a]], a);
      assert IsLinked(last);
      OnlyOnePoints(shape, root, a, last);
    }
  }

  datatype Pointer = Failed | Got(address: nat)

  class Allocator {
    var space: Space
    var maxSpace: int
    var allocations: seq<Block>
    var lastSibling: Allocator?
    var nextSibling: Allocator?
    var firstChild: Allocator?
    var onFree: seq<nat>  // jobs, in the order in which they were added

    constructor (space: Space)
      ensures this.space == space && allocations == [] && onFree == []
      ensures lastSibling == null && nextSibling == null && firstChild == null
    {
      this.space := space;
      lastSibling, nextSibling, firstChild := null, null, null;
      allocations := [];
      onFree := [];
      maxSpace := 0;
    }

    // Whether this is an allocator of a valid family.
    ghost predicate IsLive()
      reads this`space, space`root, space`shape, space`live, space`capacity, space`spaceAvailable
      reads space.shape.kids.Keys`firstChild, space.shape.kids.Keys`lastSibling, space.shape.kids.Keys`nextSibling
      reads space.live.Keys`space, space.live.Keys`maxSpace, space.live.Keys`allocations
    {
      space.Valid() && this in space.shape.kids
    }

    // Put another list of blocks in place and account for it.
    method SetAllocations(blocks: seq<Block>)
      requires space.AllCounted() && this in space.live
      modifies this`allocations, space`live
      ensures allocations == blocks
      ensures space.AllCounted() && space.live == old(space.live)[this := Bytes(blocks)]
      ensures Total(space.live) == old(Total(space.live)) - Bytes(old(allocations)) + Bytes(blocks)
    {
      hide Total;
      assert space.IsCounted(this);
      TotalChanged(space.live, this, Bytes(blocks));
      allocations := blocks;
      space.live := space.live[this := Bytes(blocks)];
      forall a <- space.live
        ensures space.IsCounted(a)
      {
        assert old(space.IsCounted(a));
      }
    }

    // Takes a block of the system's malloc at this address, NULL if there is none.  A
    // failure ends the program.
    method Malloc(size: nat, address: nat) returns (r: Pointer)
      requires IsLive()
      modifies this`allocations, space`spaceAvailable, space`live
      ensures r.Failed? <==> old(space.spaceAvailable) <= ALLOCATION_SIZE + size || address == NULL
      ensures r.Got? ==>
        && IsLive() && r.address == address
        && allocations == [Block(address, ALLOCATION_SIZE + size)] + old(allocations)
        && space.spaceAvailable == old(space.spaceAvailable) - (ALLOCATION_SIZE + size)
    {
      hide Space.AllCounted, Space.HasTree, Space.AllLinked, Total;
      var realSize := ALLOCATION_SIZE + size;
      if space.spaceAvailable <= realSize {
        return Failed;
      }
      space.spaceAvailable := space.spaceAvailable - realSize;
      if address == NULL {
        return Failed;
      }
      SetAllocations([Block(address, realSize)] + allocations);
      r := Got(address);
    }

    // Changes the size of a block in its place in the list; only what it grows by is
    // taken.  Fails for a block that this allocator does not hold.
    method Realloc(original: nat, size: nat, address: nat) returns (r: Pointer)
      requires IsLive()
      modifies this`allocations, space`spaceAvailable, space`live
      ensures r.Got? ==> IsLive() && r.address == address
      ensures original == NULL ==>
        && (r.Failed? <==> old(space.spaceAvailable) <= ALLOCATION_SIZE + size || address == NULL)
        && (r.Got? ==>
             && allocations == [Block(address, ALLOCATION_SIZE + size)] + old(allocations)
             && space.spaceAvailable == old(space.spaceAvailable) - (ALLOCATION_SIZE + size))
      ensures original != NULL ==>
        var i := IndexOf(old(allocations), original);
        && (r.Failed? <==>
             || i == |old(allocations)|
             || old(space.spaceAvailable) + old(allocations)[i].size < ALLOCATION_SIZE + size
             || address == NULL)
        && (r.Got? ==>
             && allocations == old(allocations)[i := Block(address, ALLOCATION_SIZE + size)]
             && space.spaceAvailable == old(space.spaceAvailable) + old(allocations)[i].size - (ALLOCATION_SIZE + size))
    {
      hide Space.AllCounted, Space.HasTree, Space.AllLinked, Bytes, Total;
      if original == NULL {
        r := Malloc(size, address);
        return;
      }
      var i := 0;
      while i < |allocations| && allocations[i].address != original
        invariant i <= |allocations|
        invariant forall j | 0 <= j < i :: allocations[j].address != original
      {
        i := i + 1;
      }
      IndexIsFirst(allocations, original, i);
      if i == |allocations| {
        return Failed;
      }
      var realSize := ALLOCATION_SIZE + size;
      if space.spaceAvailable + allocations[i].size < realSize {
        return Failed;
      }
      if address == NULL {
        return Failed;
      }
      BytesOfChanged(allocations, i, Block(address, realSize));
      space.spaceAvailable := space.spaceAvailable + allocations[i].size - realSize;
      SetAllocations(allocations[i := Block(address, realSize)]);
      r := Got(address);
    }

    // A new family: a single allocator in a space of its own.  Without a limit the
    // space is the largest unsigned size, which as a signed one is -1 and fails.
    static method New(sizeLimit: nat, address: nat) returns (r: Made)
      ensures r.OutOfMemory? <==> sizeLimit == 0 || address == NULL
      ensures r.Made? ==>
        && fresh(r.it) && fresh(r.it.space) && r.it.IsLive()
        && r.it.space.shape == Solo(r.it) && r.it.space.live == map[r.it := OWN_BLOCK]
        && r.it.allocations == [Block(address, OWN_BLOCK)]
        && r.it.firstChild == null
        && r.it.maxSpace == r.it.space.spaceAvailable == sizeLimit + ALLOCATOR_SIZE - ALLOCATION_SIZE
    {
      hide IsTree, Total;
      var limit := if sizeLimit == 0 then -1 else sizeLimit + FIRST_CTX_SIZE + ALLOCATOR_SIZE;
      if limit <= OWN_BLOCK || address == NULL {
        return OutOfMemory;
      }
      var space := new Space(limit);
      var context := new Allocator(space);
      context.allocations := [Block(address, OWN_BLOCK)];
      space.spaceAvailable := space.spaceAvailable - OWN_BLOCK;
      context.maxSpace := space.spaceAvailable;
      space.root := context;
      space.shape := Solo(context);
      space.live := map[context := OWN_BLOCK];
      TotalOfOne(context, OWN_BLOCK);
      r := Made(context);
      BytesOfOne(Block(address, OWN_BLOCK));
      assert context.space == space && context.maxSpace == space.capacity - OWN_BLOCK;
      assert context in space.live && space.live[context] == Bytes(context.allocations);
      assert space.IsCounted(context);
    }

    // The bytes held by the whole family, less the block of its first allocator.
    method BytesAllocated() returns (bytes: int)
      requires IsLive()
      ensures bytes == Total(space.live) - OWN_BLOCK
      ensures forall a <- space.shape.kids :: a in space.live && space.live[a] == Bytes(a.allocations)
    {
      assert space.IsCounted(this);
      assert forall a <- space.live :: space.IsCounted(a);
      bytes := maxSpace - space.spaceAvailable;
    }

    // Move a solitary allocator over to be the first child.
    method Adopt(child: Allocator)
      requires IsLive() && space.spaceAvailable > OWN_BLOCK
      requires child !in space.shape.kids && child.firstChild == null && Bytes(child.allocations) == OWN_BLOCK
      modifies this`firstChild, space`spaceAvailable, space`live, space`shape
      modifies (if firstChild == null then {} else {firstChild})`lastSibling
      modifies child`space, child`maxSpace, child`lastSibling, child`nextSibling
      ensures IsLive() && child.space == space
      ensures space.shape == Grow(old(space.shape), this, child)
      ensures space.live == old(space.live)[child := OWN_BLOCK]
      ensures space.spaceAvailable == old(space.spaceAvailable) - OWN_BLOCK
    {
      hide IsTree, Total, Grow, Bytes, Space.AllLinked, Space.AllCounted, Space.HasTree;
      space.MemberIsCounted(this);
      space.spaceAvailable := space.spaceAvailable - OWN_BLOCK;
      child.maxSpace := maxSpace;
      child.space := space;
      space.CountIn(child);
      space.LinkFirst(this, child);
    }

    // A new first child.  It is made as a family of its own and then moved over.
    method Child(address: nat) returns (r: Made)
      requires IsLive()
      modifies this`firstChild, space`spaceAvailable, space`live, space`shape
      modifies (if firstChild == null then {} else {firstChild})`lastSibling
      ensures r.OutOfMemory? <==> old(space.spaceAvailable) <= OWN_BLOCK || address == NULL
      ensures r.Made? ==>
        && fresh(r.it) && r.it.space == space && IsLive()
        && space.shape == Grow(old(space.shape), this, r.it)
        && space.live == old(space.live)[r.it := OWN_BLOCK]
        && space.spaceAvailable == old(space.spaceAvailable) - OWN_BLOCK
    {
      hide IsTree, Total, Grow, Solo, Bytes, Space.AllLinked, Space.AllCounted, Space.HasTree;
      if space.spaceAvailable <= OWN_BLOCK {
        return OutOfMemory;
      }
      r := New(OWN_BLOCK, address);
      if r.OutOfMemory? {
        return;
      }
      BytesOfOne(Block(address, OWN_BLOCK));
      Adopt(r.it);
    }

    // A job to run when the allocator is freed; it takes a block to hold it.
    method AddOnFreeJob(job: nat, address: nat) returns (r: Pointer)
      requires IsLive()
      modifies this`allocations, this`onFree, space`spaceAvailable, space`live
      ensures r.Failed? <==> old(space.spaceAvailable) <= ALLOCATION_SIZE + JOB_SIZE || address == NULL
      ensures r.Got? ==>
        && IsLive() && onFree == old(onFree) + [job]
        && allocations == [Block(address, ALLOCATION_SIZE + JOB_SIZE)] + old(allocations)
    {
      hide Space.Valid;
      r := Malloc(JOB_SIZE, address);
      if r.Got? {
        onFree := onFree + [job];
      }
    }

    // Gives all blocks back, including the one that holds the allocator.
    method Release()
      requires space.AllCounted() && this in space.live
      modifies space`spaceAvailable, space`live
      ensures space.AllCounted() && space.live == old(space.live) - {this}
      ensures space.spaceAvailable + Total(space.live) == old(space.spaceAvailable + Total(space.live))
      ensures space.spaceAvailable >= old(space.spaceAvailable)
    {
      hide Total;
      assert space.IsCounted(this);
      var loc := 0;
      while loc < |allocations|
        invariant loc <= |allocations|
        invariant space.spaceAvailable + Bytes(allocations[loc..]) == old(space.spaceAvailable) + Bytes(allocations)
        invariant space.live == old(space.live)
      {
        space.spaceAvailable := space.spaceAvailable + allocations[loc].size;
        loc := loc + 1;
      }
      TotalWithout(space.live, this);
      space.live := space.live - {this};
      forall a <- space.live
        ensures space.IsCounted(a)
      {
        assert old(space.IsCounted(a));
      }
    }

    // The allocator and all below it, each before its children and the children in
    // list order: so their jobs are to run.
    ghost function Subtree(): (them: seq<Allocator>)
      requires space.HasTree() && this in space.shape.kids
      reads this`space, space`root, space`shape
      ensures them != [] && them[0] == this
    {
      Visits(space.shape, space.root, this)
    }

    ghost function Descendants(): seq<Allocator>
      requires space.HasTree() && this in space.shape.kids
      reads this`space, space`root, space`shape
    {
      Subtree()[1..]
    }

    // Frees the allocator and all below it: exactly that subtree leaves the tree, the
    // links of the others close over it, its bytes are available again, and all its jobs
    // have run, those of an allocator before those of its children.
    method Free()
      requires IsLive()
      modifies space`spaceAvailable, space`live, space`shape, space`ran
      modifies space.shape.kids.Keys`firstChild, space.shape.kids.Keys`lastSibling, space.shape.kids.Keys`nextSibling
      ensures space.Valid()
      ensures space.shape == Prune(old(space.shape), this)
      ensures space.live == old(space.live) - old(space.shape.below[this])
      ensures space.ran == old(space.ran) + old(JobsOf(Subtree()))
      decreases space.shape.below[this], 2
    {
      hide *;
      FamilyIsTree();
      OwnJobsFirst();
      ThenBoth(space.ran, onFree, JobsOf(Descendants()));
      MemberIsLinked();
      RunJobs();
      FreeChildren();
      ThenIs(old(space.ran), old(JobsOf(Subtree())));
      Leave();
    }

    lemma OwnJobsFirst()
      requires space.HasTree() && this in space.shape.kids
      ensures JobsOf(Subtree()) == onFree + JobsOf(Descendants())
    {}

    lemma ChildJobsFirst()
      requires IsLive() && space.shape.kids[this] != []
      ensures var c := space.shape.kids[this][0];
              && c in space.shape.kids && c in space.shape.below
              && var t := Prune(space.shape, c);
              && IsTree(t, space.root) && this in t.kids
              && JobsOf(Descendants()) == JobsOf(c.Subtree()) + JobsOf(Visits(t, space.root, this)[1..])
    {
      hide IsTree, Prune, Visits, JobsOf;
      var c := space.shape.kids[this][0];
      VisitsChildFirst(space.shape, space.root, this);
      ChildIsLinked();
      JobsOfBoth(Visits(space.shape, space.root, c), Visits(Prune(space.shape, c), space.root, this)[1..]);
    }

    lemma DescendantsAre()
      requires space.HasTree() && this in space.shape.kids
      ensures IsTree(space.shape, space.root) && Descendants() == Visits(space.shape, space.root, this)[1..]
    {}

    lemma NoJobsLeft()
      requires IsLive() && space.shape.kids[this] == []
      ensures JobsOf(Descendants()) == []
    {
      hide IsTree;
      AreChildren(space.shape, space.root, this);
      assert Subtree() == [this] + VisitsOf(space.shape, space.root, this, []);
    }

    // A childless allocator leaves the family.
    method Leave()
      requires IsLive() && space.shape.kids[this] == []
      modifies space`spaceAvailable, space`live, space`shape
      modifies space.shape.kids.Keys`firstChild, space.shape.kids.Keys`lastSibling, space.shape.kids.Keys`nextSibling
      ensures space.Valid()
      ensures space.shape == Prune(old(space.shape), this) && space.live == old(space.live) - {this}
    {
      hide IsTree, Prune, Total, Space.AllLinked, Space.AllCounted, Space.IsLinked, Space.IsCounted;
      PruneChildless(space.shape, space.root, this);
      space.Unlink(this);
      Release();
    }

    method RunJobs()
      modifies space`ran
      ensures space.ran == Then(old(space.ran), onFree)
    {
      var job := 0;
      while job < |onFree|
        invariant job <= |onFree| && space.ran == old(space.ran) + onFree[..job]
      {
        space.ran := space.ran + [onFree[job]];
        job := job + 1;
      }
    }

    lemma FamilyIsTree()
      requires IsLive()
      ensures this in space.shape.kids && this in space.shape.below
      ensures space.root != null && IsTree(space.shape, space.root)
      ensures space.HasTree() && space.AllLinked() && space.AllCounted() && space.IsConserved()
    {}

    lemma StaysLive()
      requires space.Valid() && this in space.shape.kids
      ensures IsLive()
    {}

    lemma MemberIsLinked()
      requires IsLive()
      ensures this in space.shape.below && firstChild == First(space.shape.kids[this])
    {
      hide Space.AllCounted;
      assert space.IsLinked(this);
    }

    lemma ChildIsLinked()
      requires IsLive() && space.shape.kids[this] != []
      ensures var child := space.shape.kids[this][0];
              && child.IsLive() && child.space == space
              && child.nextSibling == First(space.shape.kids[this][1..])
    {
      hide IsTree;
      FirstChild(space.shape, space.root, this);
      TreeIsBelow(space.shape, space.root);
      var child := space.shape.kids[this][0];
      assert space.IsLinked(child) && space.IsCounted(child);
    }

    // Frees the first child; the rest of the subtree is as it was.
    method FreeChild(child: Allocator)
      requires IsLive() && space.shape.kids[this] != [] && child == space.shape.kids[this][0]
      modifies space`spaceAvailable, space`live, space`shape, space`ran
      modifies space.shape.kids.Keys`firstChild, space.shape.kids.Keys`lastSibling, space.shape.kids.Keys`nextSibling
      ensures IsLive() && space.shape.kids.Keys <= old(space.shape.kids.Keys)
      ensures this in space.shape.below && space.shape.kids[this] == old(space.shape.kids[this])[1..]
      ensures Prune(space.shape, this) == Prune(old(space.shape), this)
      ensures space.shape.below[this] <= old(space.shape.below[this])
      ensures space.live - space.shape.below[this] == old(space.live) - old(space.shape.below[this])
      ensures Then(space.ran, JobsOf(Descendants())) == Then(old(space.ran), old(JobsOf(Descendants())))
      decreases space.shape.below[this], 0
    {
      hide *;
      FamilyIsTree();
      ChildIsLinked();
      ChildJobsFirst();
      ghost var jobs, left := JobsOf(child.Subtree()), Visits(Prune(space.shape, child), space.root, this)[1..];
      ghost var more := JobsOf(left);
      ThenBoth(space.ran, jobs, more);
      ThenIs(space.ran, jobs);
      PruneChildFirst(space.shape, space.root, this);
      LiveWithoutBoth(space.live, space.shape.below[child], space.shape.below[this]);
      child.Free();
      StaysLive();
      FamilyIsTree();
      DescendantsAre();
      assert Descendants() == left;
      assert JobsOf(left) == more;
    }

    // The first child is freed until there is none.
    method FreeChildren()
      requires IsLive()
      modifies space`spaceAvailable, space`live, space`shape, space`ran
      modifies space.shape.kids.Keys`firstChild, space.shape.kids.Keys`lastSibling, space.shape.kids.Keys`nextSibling
      ensures IsLive() && space.shape.kids[this] == [] && space.shape.kids.Keys <= old(space.shape.kids.Keys)
      ensures Prune(space.shape, this) == Prune(old(space.shape), this)
      ensures space.live - {this} == old(space.live) - old(space.shape.below[this])
      ensures space.ran == Then(old(space.ran), old(JobsOf(Descendants())))
      decreases space.shape.below[this], 1
    {
      hide IsTree, Prune, Total, Visits, JobsOf, Subtree, Descendants, Then;
      hide Space.Valid, Space.HasTree, Space.AllLinked, Space.AllCounted, Space.IsConserved;
      FamilyIsTree();
      MemberIsLinked();
      ghost var all := space.shape.below[this];
      var child := firstChild;
      while child != null
        invariant IsLive() && space.shape.kids.Keys <= old(space.shape.kids.Keys)
        invariant space.HasTree() && this in space.shape.below && space.shape.below[this] <= all
        invariant child == First(space.shape.kids[this])
        invariant Prune(space.shape, this) == Prune(old(space.shape), this)
        invariant space.live - space.shape.below[this] == old(space.live) - all
        invariant Then(space.ran, JobsOf(Descendants())) == Then(old(space.ran), old(JobsOf(Descendants())))
        decreases |space.shape.kids[this]|
      {
        ChildIsLinked();
        var nextChild := child.nextSibling;
        FreeChild(child);
        FamilyIsTree();
        child := nextChild;
      }
      FamilyIsTree();
      NoJobsLeft();
      ThenNone(space.ran);
      PruneChildless(space.shape, space.root, this);
    }
  }

  datatype Made = OutOfMemory | Made(it: Allocator)
}
