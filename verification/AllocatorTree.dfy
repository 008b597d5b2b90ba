// The family tree of allocators as a value: who is whose child, in order, and who is
// below whom.  Generic in the type of the nodes.

module AllocatorTree {
  // The children of every node, the nodes below it (itself included) and its parent.
  datatype Shape<!A(==)> = Shape(kids: map<A, seq<A>>, below: map<A, set<A>>, up: map<A, A>)

  ghost predicate NoTwice<A>(kids: seq<A>) {
    forall i, j | 0 <= i < j < |kids| :: kids[i] != kids[j]
  }

  // The children of a node are listed once each and have it for a parent.
  ghost predicate ListsKids<A>(s: Shape<A>, n: A) {
    n in s.kids && NoTwice(s.kids[n]) && forall c <- s.kids[n] :: c in s.up && s.up[c] == n
  }

  // A child is listed by its parent and lies, with all below it, strictly below it.
  ghost predicate HasParent<A>(s: Shape<A>, c: A) {
    && c in s.up && s.up[c] in s.kids && c in s.kids[s.up[c]]
    && c in s.below && s.up[c] in s.below && s.below[c] <= s.below[s.up[c]] && s.up[c] !in s.below[c]
  }

  // Whatever is below a node, other than itself, has its parent and all that is below
  // it there too.
  ghost predicate IsClosedAt<A>(s: Shape<A>, n: A, m: A) {
    && n in s.below && m in s.kids && m in s.below && s.below[m] <= s.below[n]
    && (m != n ==> m in s.up && s.up[m] in s.below[n])
  }

  ghost predicate IsClosed<A>(s: Shape<A>, n: A) {
    n in s.below && n in s.below[n] && forall m {:trigger IsClosedAt(s, n, m)} | m in s.below[n] :: IsClosedAt(s, n, m)
  }

  // A tree with this root, or nothing at all.
  ghost predicate IsTree<A>(s: Shape<A>, root: A) {
    && s.below.Keys == s.kids.Keys && s.up.Keys == s.kids.Keys - {root}
    && (s.kids.Keys != {} ==> root in s.below && s.below[root] == s.kids.Keys)
    && (forall n <- s.kids :: ListsKids(s, n))
    && (forall n <- s.kids :: IsClosed(s, n))
    && (forall c <- s.up :: HasParent(s, c))
  }

  lemma Inside<A>(s: Shape<A>, root: A, a: A)
    requires IsTree(s, root) && a in s.kids
    ensures a in s.below && a in s.below[a] && s.below[a] <= s.kids.Keys
  {
    assert IsClosed(s, a) && IsClosed(s, root) && IsClosedAt(s, root, a);
  }

  lemma Under<A>(s: Shape<A>, root: A, a: A, m: A)
    requires IsTree(s, root) && a in s.kids && a in s.below && m in s.below[a]
    ensures IsClosedAt(s, a, m)
  {
    assert IsClosed(s, a);
  }

  ghost function Solo<A>(root: A): (s: Shape<A>)
    ensures IsTree(s, root)
  {
    Shape(map[root := []], map[root := {root}], map[])
  }

  ghost function Grow<A>(s: Shape<A>, parent: A, child: A): Shape<A>
    requires parent in s.kids
  {
    Shape(
      s.kids[parent := [child] + s.kids[parent]][child := []],
      (map n | n in s.below :: if parent in s.below[n] then s.below[n] + {child} else s.below[n])[child := {child}],
      s.up[child := parent])
  }

  ghost function Without<A>(kids: seq<A>, a: A): (rest: seq<A>)
    ensures forall c <- rest :: c in kids && c != a
    ensures forall c <- kids :: c != a ==> c in rest
  {
    if kids == [] then [] else if kids[0] == a then Without(kids[1..], a) else [kids[0]] + Without(kids[1..], a)
  }

  // Exactly what is below a goes, and a goes from its parent's children.
  ghost function Prune<A>(s: Shape<A>, a: A): Shape<A>
    requires a in s.below
  {
    var gone := s.below[a];
    Shape(
      map n | n in s.kids && n !in gone :: Without(s.kids[n], a),
      map n | n in s.below && n !in gone :: s.below[n] - gone,
      s.up - gone)
  }

  // ------------------------------------------------------------------------- growing

  lemma GrowValues<A>(s: Shape<A>, root: A, parent: A, child: A)
    requires IsTree(s, root) && parent in s.kids && child !in s.kids
    ensures var t := Grow(s, parent, child);
            && t.kids.Keys == s.kids.Keys + {child}
            && t.kids[child] == [] && t.kids[parent] == [child] + s.kids[parent]
            && child in t.below && t.below[child] == {child}
            && child in t.up && t.up[child] == parent
    ensures child !in s.kids[parent]
  {
    assert ListsKids(s, parent);
  }

  // What growing does to a node that was there before.
  lemma GrowAt<A>(s: Shape<A>, root: A, parent: A, child: A, n: A)
    requires IsTree(s, root) && parent in s.kids && child !in s.kids && n in s.kids
    ensures var t := Grow(s, parent, child);
            && n in t.kids && t.kids[n] == (if n == parent then [child] + s.kids[n] else s.kids[n])
            && n in t.below && t.below[n] == (if parent in s.below[n] then s.below[n] + {child} else s.below[n])
            && (n in s.up ==> n in t.up && t.up[n] == s.up[n])
    ensures n != child && child !in s.up
  {
    hide ListsKids, HasParent, IsClosed;
  }

  lemma InFront<A>(kids: seq<A>, child: A)
    requires NoTwice(kids) && child !in kids
    ensures NoTwice([child] + kids)
  {
    var more := [child] + kids;
    assert forall i | 0 < i < |more| :: more[i] == kids[i - 1] && more[i] in kids;
  }

  lemma GrowLists<A>(s: Shape<A>, root: A, parent: A, child: A, n: A)
    requires IsTree(s, root) && parent in s.kids && child !in s.kids && n in s.kids
    ensures ListsKids(Grow(s, parent, child), n)
  {
    var t := Grow(s, parent, child);
    GrowAt(s, root, parent, child, n);
    GrowValues(s, root, parent, child);
    assert ListsKids(s, n);
    assert child !in s.kids[n];
    forall c <- t.kids[n]
      ensures c in t.up && t.up[c] == n
    {
      if c != child {
        assert c in s.kids[n] && c in s.up;
        GrowAt(s, root, parent, child, c);
      }
    }
    hide Grow, IsTree;
    if n == parent {
      InFront(s.kids[n], child);
    }
  }

  lemma GrowParents<A>(s: Shape<A>, root: A, parent: A, child: A, c: A)
    requires IsTree(s, root) && parent in s.kids && child !in s.kids && c in s.up
    ensures HasParent(Grow(s, parent, child), c)
  {
    assert HasParent(s, c);
    assert IsClosed(s, c) && IsClosed(s, s.up[c]);
  }

  lemma GrowClosesAt<A>(s: Shape<A>, root: A, parent: A, child: A, n: A, m: A)
    requires IsTree(s, root) && parent in s.kids && child !in s.kids && n in s.kids && m in s.below[n]
    ensures IsClosedAt(Grow(s, parent, child), n, m)
  {
    hide Grow;
    GrowAt(s, root, parent, child, n);
    Under(s, root, n, m);
    GrowAt(s, root, parent, child, m);
  }

  lemma GrowCloses<A>(s: Shape<A>, root: A, parent: A, child: A, n: A)
    requires IsTree(s, root) && parent in s.kids && child !in s.kids && n in s.kids
    ensures IsClosed(Grow(s, parent, child), n)
  {
    var t := Grow(s, parent, child);
    GrowAt(s, root, parent, child, n);
    GrowValues(s, root, parent, child);
    Inside(s, root, n);
    Inside(s, root, parent);
    hide Grow, IsTree;
    forall m | m in t.below[n]
      ensures IsClosedAt(t, n, m)
    {
      if m != child {
        GrowClosesAt(s, root, parent, child, n, m);
      }
    }
  }

  lemma GrowKeepsTree<A>(s: Shape<A>, root: A, parent: A, child: A)
    requires IsTree(s, root) && parent in s.kids && child !in s.kids
    ensures IsTree(Grow(s, parent, child), root)
  {
    hide ListsKids, HasParent, IsClosed;
    var t := Grow(s, parent, child);
    ChildIsLeaf(s, root, parent, child);
    GrowKeepsRoot(s, root, parent, child);
    forall n <- t.kids
      ensures ListsKids(t, n) && IsClosed(t, n)
    {
      if n != child {
        GrowLists(s, root, parent, child, n);
        GrowCloses(s, root, parent, child, n);
      }
    }
    forall c <- t.up
      ensures HasParent(t, c)
    {
      if c != child {
        GrowParents(s, root, parent, child, c);
      }
    }
  }

  lemma ChildIsLeaf<A>(s: Shape<A>, root: A, parent: A, child: A)
    requires IsTree(s, root) && parent in s.kids && child !in s.kids
    ensures var t := Grow(s, parent, child);
            ListsKids(t, child) && IsClosed(t, child) && HasParent(t, child)
  {
    assert IsClosed(s, parent);
    var t := Grow(s, parent, child);
    assert t.kids[child] == [] && t.below[child] == {child} && t.up[child] == parent;
  }

  lemma GrowKeepsRoot<A>(s: Shape<A>, root: A, parent: A, child: A)
    requires IsTree(s, root) && parent in s.kids && child !in s.kids
    ensures var t := Grow(s, parent, child);
            && t.below.Keys == t.kids.Keys && t.up.Keys == t.kids.Keys - {root}
            && root in t.below && t.below[root] == t.kids.Keys
  {
    hide ListsKids, HasParent, IsClosed;
  }

  // ------------------------------------------------------------------------- pruning

  lemma {:induction false} WithoutKeepsNoTwice<A>(kids: seq<A>, a: A)
    requires NoTwice(kids)
    ensures NoTwice(Without(kids, a))
  {
    if kids != [] {
      WithoutKeepsNoTwice(kids[1..], a);
      assert kids[0] !in kids[1..];
    }
  }

  // Who stays has its parent stay, and of its children all but a.
  lemma FamilyStays<A>(s: Shape<A>, root: A, a: A, n: A)
    requires IsTree(s, root) && a in s.kids && n in s.kids && n !in s.below[a]
    ensures n in s.up ==> s.up[n] !in s.below[a]
    ensures forall c <- s.kids[n] :: c != a ==> c !in s.below[a]
  {
    Inside(s, root, n);
    assert ListsKids(s, n);
    if n in s.up {
      assert HasParent(s, n);
      if s.up[n] in s.below[a] {
        Under(s, root, a, s.up[n]);
      }
    }
    forall c <- s.kids[n]
      ensures c != a ==> c !in s.below[a]
    {
      if c in s.below[a] {
        Under(s, root, a, c);
      }
    }
  }

  lemma PruneLists<A>(s: Shape<A>, root: A, a: A, n: A)
    requires IsTree(s, root) && a in s.kids && n in s.kids && n !in s.below[a]
    ensures ListsKids(Prune(s, a), n)
  {
    assert ListsKids(s, n);
    WithoutKeepsNoTwice(s.kids[n], a);
    FamilyStays(s, root, a, n);
  }

  lemma PruneParents<A>(s: Shape<A>, root: A, a: A, c: A)
    requires IsTree(s, root) && a in s.kids && c in s.up && c !in s.below[a]
    ensures HasParent(Prune(s, a), c)
  {
    Inside(s, root, a);
    assert HasParent(s, c);
    FamilyStays(s, root, a, c);
  }

  lemma PruneCloses<A>(s: Shape<A>, root: A, a: A, n: A)
    requires IsTree(s, root) && a in s.kids && n in s.kids && n !in s.below[a]
    ensures IsClosed(Prune(s, a), n)
  {
    var t := Prune(s, a);
    Inside(s, root, n);
    forall m | m in t.below[n]
      ensures IsClosedAt(t, n, m)
    {
      PruneClosesAt(s, root, a, n, m);
    }
  }

  lemma PruneClosesAt<A>(s: Shape<A>, root: A, a: A, n: A, m: A)
    requires IsTree(s, root) && a in s.kids && n in s.kids && n !in s.below[a]
    requires m in s.below[n] && m !in s.below[a]
    ensures IsClosedAt(Prune(s, a), n, m)
  {
    Under(s, root, n, m);
    FamilyStays(s, root, a, m);
  }

  lemma PruneKeepsTree<A>(s: Shape<A>, root: A, a: A)
    requires IsTree(s, root) && a in s.kids
    ensures IsTree(Prune(s, a), root)
  {
    hide ListsKids, HasParent, IsClosed;
    var t := Prune(s, a);
    forall n <- t.kids
      ensures ListsKids(t, n) && IsClosed(t, n)
    {
      PruneLists(s, root, a, n);
      PruneCloses(s, root, a, n);
    }
    forall c <- t.up
      ensures HasParent(t, c)
    {
      PruneParents(s, root, a, c);
    }
    PruneKeepsRoot(s, root, a);
  }

  lemma PruneKeepsRoot<A>(s: Shape<A>, root: A, a: A)
    requires IsTree(s, root) && a in s.kids
    ensures var t := Prune(s, a); t.kids.Keys != {} ==> root in t.below && t.below[root] == t.kids.Keys
    ensures root in s.below[a] <==> root == a
  {
    Inside(s, root, a);
    assert root !in s.up;
    if root in s.below[a] {
      Under(s, root, a, root);
    }
  }

  // ------------------------------------------------------------ what below stands for

  // Going up from a node k times leads to another.
  ghost predicate Climbs<A>(s: Shape<A>, from: A, to: A, k: nat) {
    if k == 0 then from == to else from in s.up && Climbs(s, s.up[from], to, k - 1)
  }

  lemma {:induction false} BelowClimbs<A>(s: Shape<A>, root: A, a: A, m: A) returns (k: nat)
    requires IsTree(s, root) && a in s.kids && m in s.kids && m in s.below[a]
    ensures Climbs(s, m, a, k)
    ensures m != a ==> s.kids[a] != []
    decreases s.kids.Keys - s.below[m]
  {
    k := 0;
    if m != a {
      Under(s, root, a, m);
      var p := s.up[m];
      assert HasParent(s, m);
      Inside(s, root, m);
      Inside(s, root, p);
      assert s.below[m] < s.below[p] <= s.kids.Keys;
      k := BelowClimbs(s, root, a, p);
      k := k + 1;
      assert p == a ==> m in s.kids[a];
    }
  }

  lemma ParentIsBelow<A>(s: Shape<A>, root: A, a: A, m: A)
    requires IsTree(s, root) && a in s.kids && m in s.kids
    ensures a in s.below && a in s.below[a]
    ensures m in s.up ==> s.up[m] in s.kids && (s.up[m] in s.below[a] ==> m in s.below[a])
  {
    Inside(s, root, m);
    Inside(s, root, a);
    if m in s.up {
      assert HasParent(s, m);
      if s.up[m] in s.below[a] {
        Under(s, root, a, s.up[m]);
      }
    }
  }

  lemma {:induction false} ClimbsIsBelow<A>(s: Shape<A>, root: A, a: A, m: A, k: nat)
    requires IsTree(s, root) && a in s.kids && m in s.kids && Climbs(s, m, a, k)
    ensures a in s.below && m in s.below[a]
  {
    hide IsTree;
    ParentIsBelow(s, root, a, m);
    if k > 0 {
      ClimbsIsBelow(s, root, a, s.up[m], k - 1);
    }
  }

  ghost predicate IsAncestor<A>(s: Shape<A>, a: A, m: A) {
    exists k: nat :: Climbs(s, m, a, k)
  }

  // Below a node are exactly those from which the way up leads to it.
  lemma BelowMeans<A>(s: Shape<A>, root: A, a: A, m: A)
    requires IsTree(s, root) && a in s.kids && m in s.kids
    ensures m in s.below[a] <==> IsAncestor(s, a, m)
  {
    if m in s.below[a] {
      var k := BelowClimbs(s, root, a, m);
    }
    if IsAncestor(s, a, m) {
      var k: nat :| Climbs(s, m, a, k);
      ClimbsIsBelow(s, root, a, m, k);
    }
  }

  lemma ChildlessIsAlone<A>(s: Shape<A>, root: A, a: A)
    requires IsTree(s, root) && a in s.kids && s.kids[a] == []
    ensures s.below[a] == {a}
  {
    Inside(s, root, a);
    if m :| m in s.below[a] && m != a {
      var _ := BelowClimbs(s, root, a, m);
    }
  }

  lemma PruneChildless<A>(s: Shape<A>, root: A, a: A)
    requires IsTree(s, root) && a in s.kids && s.kids[a] == []
    ensures a in s.below && s.below[a] == {a}
    ensures var t := Prune(s, a);
            && t.kids.Keys == s.kids.Keys - {a}
            && (a !in s.up ==> t.kids.Keys == {})
            && (forall k <- t.kids :: k in s.kids && t.kids[k] == Without(s.kids[k], a))
            && t.up.Keys == s.up.Keys - {a} && (forall k <- t.up :: t.up[k] == s.up[k])
  {
    hide ListsKids, IsClosed, HasParent;
    ChildlessIsAlone(s, root, a);
  }

  lemma {:induction false} WithoutAbsent<A>(kids: seq<A>, a: A)
    requires a !in kids
    ensures Without(kids, a) == kids
  {
    if kids != [] {
      WithoutAbsent(kids[1..], a);
      assert kids == [kids[0]] + kids[1..];
    }
  }

  lemma FirstChild<A>(s: Shape<A>, root: A, a: A)
    requires IsTree(s, root) && a in s.kids && s.kids[a] != []
    ensures var c := s.kids[a][0];
            && c in s.below && c in s.up && s.up[c] == a
            && a !in s.below[c] && s.below[c] <= s.below[a]
            && Without(s.kids[a], c) == s.kids[a][1..]
  {
    var c := s.kids[a][0];
    assert ListsKids(s, a) && c in s.kids[a];
    assert HasParent(s, c);
    WithoutAbsent(s.kids[a][1..], c);
  }

  lemma KidsAfterBoth<A>(s: Shape<A>, root: A, a: A, c: A, n: A)
    requires IsTree(s, root) && a in s.kids && c in s.up && s.up[c] == a
    requires n in s.kids && n !in s.below[a]
    ensures Without(Without(s.kids[n], c), a) == Without(s.kids[n], a)
  {
    Inside(s, root, a);
    assert ListsKids(s, n);
    WithoutAbsent(s.kids[n], c);
  }

  // Pruning a child first makes no difference when its parent is pruned afterwards.
  lemma PruneChildFirst<A>(s: Shape<A>, root: A, a: A)
    requires IsTree(s, root) && a in s.kids && s.kids[a] != []
    ensures var c := s.kids[a][0];
            && c in s.kids && c in s.below && s.below[c] <= s.below[a] && a !in s.below[c]
            && a in s.below[a]
            && var t := Prune(s, c);
            && a in t.kids && a in t.below && t.kids.Keys <= s.kids.Keys
            && t.below[a] == s.below[a] - s.below[c]
            && t.kids[a] == s.kids[a][1..]
            && Prune(t, a) == Prune(s, a)
  {
    var c := s.kids[a][0];
    FirstChild(s, root, a);
    forall n | n in s.kids && n !in s.below[a]
      ensures Without(Without(s.kids[n], c), a) == Without(s.kids[n], a)
    {
      KidsAfterBoth(s, root, a, c, n);
    }
    Inside(s, root, a);
    PruneBoth(s, a, c);
  }

  lemma PruneBoth<A>(s: Shape<A>, a: A, c: A)
    requires a in s.below && c in s.below && s.kids.Keys == s.below.Keys
    requires a !in s.below[c] && s.below[c] <= s.below[a]
    requires forall n | n in s.kids && n !in s.below[a] :: Without(Without(s.kids[n], c), a) == Without(s.kids[n], a)
    ensures Prune(Prune(s, c), a) == Prune(s, a)
  {
    var t := Prune(s, c);
    assert t.below[a] == s.below[a] - s.below[c];
    assert Prune(t, a).kids.Keys == Prune(s, a).kids.Keys;
    forall n <- Prune(s, a).kids
      ensures Prune(t, a).kids[n] == Prune(s, a).kids[n]
    {
      assert t.kids[n] == Without(s.kids[n], c);
    }
    assert Prune(t, a).kids == Prune(s, a).kids;
    forall n <- Prune(s, a).below
      ensures Prune(t, a).below[n] == Prune(s, a).below[n]
    {
      assert t.below[n] == s.below[n] - s.below[c];
    }
    assert Prune(t, a).below == Prune(s, a).below;
    assert (s.up - s.below[c]) - (s.below[a] - s.below[c]) == s.up - s.below[a];
  }

  // ------------------------------------------------- the order of freeing a subtree

  // A node and all below it: each before its children, and the children in list order.
  ghost function Visits<A>(s: Shape<A>, root: A, a: A): (r: seq<A>)
    requires IsTree(s, root) && a in s.kids
    ensures r != [] && r[0] == a
    decreases s.below[a], 1, 0
  {
    AreChildren(s, root, a);
    [a] + VisitsOf(s, root, a, s.kids[a])
  }

  ghost function VisitsOf<A>(s: Shape<A>, root: A, a: A, kids: seq<A>): seq<A>
    requires IsTree(s, root) && a in s.kids && forall c <- kids :: IsChild(s, a, c)
    decreases s.below[a], 0, |kids|
  {
    if kids == [] then [] else
    assert IsChild(s, a, kids[0]);
    Visits(s, root, kids[0]) + VisitsOf(s, root, a, kids[1..])
  }

  lemma AreChildren<A>(s: Shape<A>, root: A, a: A)
    requires IsTree(s, root) && a in s.kids
    ensures forall c <- s.kids[a] :: IsChild(s, a, c)
    ensures NoTwice(s.kids[a])
  {
    assert ListsKids(s, a);
    forall c <- s.kids[a]
      ensures IsChild(s, a, c)
    {
      assert HasParent(s, c);
      Inside(s, root, a);
    }
  }

  ghost predicate IsChild<A>(s: Shape<A>, a: A, c: A) {
    && c in s.up && s.up[c] == a && c in s.kids && c in s.below && c in s.below[c]
    && a in s.below && s.below[c] < s.below[a] && a !in s.below[c]
  }

  lemma Child<A>(s: Shape<A>, root: A, a: A, c: A)
    requires IsTree(s, root) && c in s.up && s.up[c] == a
    ensures a in s.kids && IsChild(s, a, c)
  {
    assert HasParent(s, c);
    Inside(s, root, c);
    Inside(s, root, a);
  }

  // Below a node, other than itself, is what is below one of its children.
  lemma {:induction false} BelowChild<A>(s: Shape<A>, root: A, a: A, m: A) returns (c: A)
    requires IsTree(s, root) && a in s.kids && a in s.below && m in s.below[a] && m != a
    ensures c in s.kids[a] && c in s.below && m in s.below[c] && m in s.kids && IsChild(s, a, c)
    decreases s.below[a] - (if m in s.below then s.below[m] else {})
  {
    Under(s, root, a, m);
    var p := s.up[m];
    Child(s, root, p, m);
    if p == a {
      c := m;
    } else {
      Under(s, root, a, p);
      c := BelowChild(s, root, a, p);
      ParentIsBelow(s, root, c, m);
    }
  }

  // Nothing is below two children of the same node.
  lemma {:induction false} SiblingsApart<A>(s: Shape<A>, root: A, a: A, c: A, d: A, m: A)
    requires IsTree(s, root) && c in s.up && d in s.up && s.up[c] == a == s.up[d] && c != d
    requires m in s.kids
    ensures c in s.below && d in s.below && !(m in s.below[c] && m in s.below[d])
    decreases s.kids.Keys - (if m in s.below then s.below[m] else {})
  {
    Child(s, root, a, c);
    Child(s, root, a, d);
    if m in s.below[c] && m in s.below[d] {
      Under(s, root, c, m);
      Under(s, root, d, m);
      if m != c && m != d {
        Child(s, root, s.up[m], m);
        Inside(s, root, s.up[m]);
        SiblingsApart(s, root, a, c, d, s.up[m]);
      }
    }
  }

  // The way through the subtree comes to exactly what is below the node.
  lemma {:induction false} VisitsAll<A>(s: Shape<A>, root: A, a: A, m: A)
    requires IsTree(s, root) && a in s.kids
    ensures a in s.below && (m in Visits(s, root, a) <==> m in s.below[a])
    decreases s.below[a], 1, 0
  {
    hide IsTree;
    Inside(s, root, a);
    AreChildren(s, root, a);
    VisitsAllOf(s, root, a, s.kids[a], m);
    if m in s.below[a] && m != a {
      var c := BelowChild(s, root, a, m);
    }
  }

  lemma {:induction false} VisitsAllOf<A>(s: Shape<A>, root: A, a: A, kids: seq<A>, m: A)
    requires IsTree(s, root) && a in s.kids && forall c <- kids :: IsChild(s, a, c)
    ensures m in VisitsOf(s, root, a, kids) <==> exists c <- kids :: m in s.below[c]
    decreases s.below[a], 0, |kids|
  {
    hide IsTree;
    if kids != [] {
      assert IsChild(s, a, kids[0]);
      VisitsAll(s, root, kids[0], m);
      VisitsAllOf(s, root, a, kids[1..], m);
      assert kids == [kids[0]] + kids[1..];
    }
  }

  lemma BothNoTwice<A>(xs: seq<A>, ys: seq<A>)
    requires NoTwice(xs) && NoTwice(ys) && forall x <- xs :: x !in ys
    ensures NoTwice(xs + ys)
  {
    var both := xs + ys;
    forall i, j | 0 <= i < j < |both|
      ensures both[i] != both[j]
    {
      if i < |xs| <= j {
        assert both[i] in xs && both[j] == ys[j - |xs|];
      }
    }
  }

  // ... and to nothing twice.
  lemma {:induction false} VisitsOnce<A>(s: Shape<A>, root: A, a: A)
    requires IsTree(s, root) && a in s.kids
    ensures NoTwice(Visits(s, root, a))
    decreases s.below[a], 1, 0
  {
    hide IsTree;
    AreChildren(s, root, a);
    VisitsOnceOf(s, root, a, s.kids[a]);
    VisitsAllOf(s, root, a, s.kids[a], a);
    BothNoTwice([a], VisitsOf(s, root, a, s.kids[a]));
  }

  lemma {:induction false} VisitsOnceOf<A>(s: Shape<A>, root: A, a: A, kids: seq<A>)
    requires IsTree(s, root) && a in s.kids && NoTwice(kids) && forall c <- kids :: IsChild(s, a, c)
    ensures NoTwice(VisitsOf(s, root, a, kids))
    decreases s.below[a], 0, |kids|
  {
    hide IsTree;
    if kids != [] {
      var c, rest := kids[0], kids[1..];
      assert IsChild(s, a, c);
      VisitsOnce(s, root, c);
      VisitsOnceOf(s, root, a, rest);
      forall m <- Visits(s, root, c)
        ensures m !in VisitsOf(s, root, a, rest)
      {
        ApartFromRest(s, root, a, c, rest, m);
      }
      BothNoTwice(Visits(s, root, c), VisitsOf(s, root, a, rest));
    }
  }

  lemma ApartFromRest<A>(s: Shape<A>, root: A, a: A, c: A, rest: seq<A>, m: A)
    requires IsTree(s, root) && a in s.kids && c !in rest && IsChild(s, a, c)
    requires forall d <- rest :: IsChild(s, a, d)
    requires m in Visits(s, root, c)
    ensures m !in VisitsOf(s, root, a, rest)
  {
    hide IsTree;
    VisitsAll(s, root, c, m);
    Inside(s, root, c);
    VisitsAllOf(s, root, a, rest, m);
    forall d <- rest
      ensures m !in s.below[d]
    {
      SiblingsApart(s, root, a, c, d, m);
    }
  }

  // Neither is below the other.
  ghost predicate AreApart<A>(s: Shape<A>, c: A, d: A) {
    c in s.kids && d in s.kids && c in s.below && d in s.below && d !in s.below[c] && c !in s.below[d]
  }

  // Taking a subtree out makes no difference to the way through one that lies apart.
  lemma {:induction false} VisitsAfterPrune<A>(s: Shape<A>, root: A, c: A, d: A, t: Shape<A>)
    requires IsTree(s, root) && AreApart(s, c, d) && t == Prune(s, c) && IsTree(t, root)
    ensures d in t.kids && Visits(t, root, d) == Visits(s, root, d)
    decreases s.below[d], 1, 0
  {
    hide IsTree, Prune;
    KidsApart(s, root, c, d);
    AreChildren(s, root, d);
    AreChildren(t, root, d);
    VisitsOfAfterPrune(s, root, c, d, t, s.kids[d]);
  }

  lemma KidsApart<A>(s: Shape<A>, root: A, c: A, d: A)
    requires IsTree(s, root) && AreApart(s, c, d)
    ensures var t := Prune(s, c);
            && d in t.kids && t.kids[d] == s.kids[d]
            && forall k <- s.kids[d] :: AreApart(s, c, k)
  {
    hide IsTree;
    AreChildren(s, root, d);
    Inside(s, root, d);
    Inside(s, root, c);
    FamilyStays(s, root, c, d);
    WithoutAbsent(s.kids[d], c);
    assert forall k <- s.kids[d] :: IsChild(s, d, k);
  }

  lemma {:induction false} VisitsOfAfterPrune<A>(s: Shape<A>, root: A, c: A, d: A, t: Shape<A>, kids: seq<A>)
    requires IsTree(s, root) && c in s.below && t == Prune(s, c) && IsTree(t, root) && d in s.kids && d in t.kids
    requires forall k <- kids :: IsChild(s, d, k)
    requires forall k <- kids :: IsChild(t, d, k)
    requires forall k <- kids :: AreApart(s, c, k)
    ensures VisitsOf(t, root, d, kids) == VisitsOf(s, root, d, kids)
    decreases s.below[d], 0, |kids|
  {
    hide IsTree, Prune;
    if kids != [] {
      assert IsChild(s, d, kids[0]);
      VisitsAfterPrune(s, root, c, kids[0], t);
      VisitsOfAfterPrune(s, root, c, d, t, kids[1..]);
    }
  }

  // Once the first child is gone, what is left to visit comes after its subtree.
  lemma VisitsChildFirst<A>(s: Shape<A>, root: A, a: A)
    requires IsTree(s, root) && a in s.kids && s.kids[a] != []
    ensures var c := s.kids[a][0];
            && c in s.kids && c in s.below && a in Prune(s, c).kids && IsTree(Prune(s, c), root)
            && Visits(s, root, a)[1..] == Visits(s, root, c) + Visits(Prune(s, c), root, a)[1..]
  {
    hide IsTree, Prune;
    var c := s.kids[a][0];
    AreChildren(s, root, a);
    PruneChildFirst(s, root, a);
    PruneKeepsTree(s, root, c);
    var t, rest := Prune(s, c), s.kids[a][1..];
    AreChildren(t, root, a);
    RestIsApart(s, root, a);
    VisitsOfAfterPrune(s, root, c, a, t, rest);
  }

  lemma RestIsApart<A>(s: Shape<A>, root: A, a: A)
    requires IsTree(s, root) && a in s.kids && s.kids[a] != []
    ensures forall k <- s.kids[a][1..] :: AreApart(s, s.kids[a][0], k) && IsChild(s, a, k)
  {
    hide IsTree;
    var c := s.kids[a][0];
    AreChildren(s, root, a);
    assert IsChild(s, a, c);
    forall k <- s.kids[a][1..]
      ensures AreApart(s, c, k) && IsChild(s, a, k)
    {
      assert k in s.kids[a] && IsChild(s, a, k);
      SiblingsApart(s, root, a, c, k, k);
      SiblingsApart(s, root, a, c, k, c);
    }
  }
}
