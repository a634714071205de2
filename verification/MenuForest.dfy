/**
 The shape of what `buildMenuTree` returns: every menu below its parent, siblings
 sorted, and nothing else possible. With distinct IDs these facts leave one forest
 only, so the result cannot depend on the order of the list when nothing is lost.
 */
module MenuForest {
  import opened Domain
  import opened MenuTree
  import opened MenuSurvival
  import opened Sorting

  /** Children name their parent's ID, which is not 0. */
  ghost predicate Nested(ms: seq<Menu>) {
    forall m | m in ms :: ChildrenOf(m.id, m.children) && Nested(m.children)
  }

  ghost predicate ChildrenOf(id: nat, children: seq<Menu>) {
    forall c | c in children :: c.parentID == id && id != 0
  }

  ghost predicate SortedSiblings(ms: seq<Menu>) {
    Ordered(ms, BEFORE)
  }

  ghost predicate SortedForest(ms: seq<Menu>) {
    SortedSiblings(ms) && forall m | m in ms :: SortedForest(m.children)
  }

  /** No two menus of the bag have the same ID. */
  ghost predicate DistinctBag(b: multiset<Menu>) {
    && (forall x | x in b :: b[x] == 1)
    && (forall x, y | x in b && y in b && x.id == y.id :: x == y)
  }

  ghost predicate Rootless(m: Menu, b: multiset<Menu>) {
    m.parentID == 0 || forall x | x in b :: x.id != m.parentID
  }

  /** A sorted, properly nested forest without repeated IDs, whose top level is
      exactly the menus without a parent in it. */
  ghost predicate WellFormed(f: seq<Menu>) {
    && Nested(f) && SortedForest(f) && DistinctBag(Bag(f))
    && forall m | m in f :: Rootless(m, Bag(f))
  }

  // ------------------------------------------------ the builder keeps the shape

  lemma AddedNested(m: Menu, child: Menu)
    requires Nested([m]) && Nested([child]) && child.parentID == m.id && m.id != 0
    ensures Nested([m.(children := m.children + [child])])
  {
    assert m in [m] && child in [child];
  }

  lemma NestedStep(items: seq<Menu>, i: nat, t: nat)
    requires i < |items| && t < |items| && Nested([NodeAt(items, i, t)])
    requires ParentIndex(items, t) == i ==> Nested([NodeAt(items, t, t)])
    ensures Nested([NodeAt(items, i, t + 1)])
  {
    if ParentIndex(items, t) == i {
      var before, added := NodeAt(items, i, t), NodeAt(items, t, t);
      assert added.parentID == Bare(added).parentID == Bare(before).id == before.id;
      AddedNested(before, added);
    }
  }

  lemma {:induction false} NodeAtNested(items: seq<Menu>, i: nat, t: nat)
    requires i < |items| && t <= |items|
    ensures Nested([NodeAt(items, i, t)])
    decreases t
  {
    if t > 0 {
      var s := t - 1;
      NodeAtNested(items, i, s);
      if ParentIndex(items, s) == i {
        NodeAtNested(items, s, s);
      }
      NestedStep(items, i, s);
    }
  }

  lemma {:induction false} RootsNested(items: seq<Menu>, k: nat)
    requires k <= |items|
    ensures Nested(Roots(items, k))
  {
    if k > 0 {
      var i := k - 1;
      RootsNested(items, i);
      NodeAtNested(items, i, |items|);
      NestedRootsStep(items, i);
    }
  }

  lemma NestedRootsStep(items: seq<Menu>, i: nat)
    requires i < |items| && Nested(Roots(items, i)) && Nested([NodeAt(items, i, |items|)])
    ensures Nested(Roots(items, i + 1))
  {
    NestedConcat(Roots(items, i), [NodeAt(items, i, |items|)]);
    assert Roots(items, i) + [] == Roots(items, i);
  }

  lemma NestedConcat(a: seq<Menu>, b: seq<Menu>)
    requires Nested(a) && Nested(b)
    ensures Nested(a + b)
  {
  }

  lemma {:induction false} RootsAreRoots(items: seq<Menu>, k: nat, m: Menu) returns (i: nat)
    requires k <= |items| && m in Roots(items, k)
    ensures i < |items| && IsRoot(items, i) && Bare(m) == Bare(items[i])
  {
    if m in Roots(items, k - 1) {
      i := RootsAreRoots(items, k - 1, m);
    } else {
      i := k - 1;
    }
  }

  /** Sorting keeps the bare menus of the top level. */
  lemma {:induction false} SortForestMembers(ms: seq<Menu>)
    ensures forall x | x in SortForest(ms) ::
      exists m | m in ms :: Bare(m) == Bare(x) && x.children == SortForest(m.children)
  {
    if ms != [] {
      SortForestMembers(ms[1..]);
      InsertMembers(SortNode(ms[0]), SortForest(ms[1..]), BEFORE);
      forall x | x in SortForest(ms)
        ensures exists m | m in ms :: Bare(m) == Bare(x) && x.children == SortForest(m.children)
      {
        if x == SortNode(ms[0]) {
          assert ms[0] in ms;
        } else {
          var m :| m in ms[1..] && Bare(m) == Bare(x) && x.children == SortForest(m.children);
          assert m in ms;
        }
      }
    }
  }

  lemma {:induction false} SortForestNested(ms: seq<Menu>)
    requires Nested(ms)
    ensures Nested(SortForest(ms))
    decreases Height(ms)
  {
    SortForestMembers(ms);
    forall x | x in SortForest(ms) ensures ChildrenOf(x.id, x.children) && Nested(x.children) {
      var m :| m in ms && Bare(m) == Bare(x) && x.children == SortForest(m.children);
      SortForestNested(m.children);
      SortForestMembers(m.children);
      assert m.id == Bare(m).id == x.id;
      forall c | c in x.children ensures c.parentID == x.id && x.id != 0 {
        var d :| d in m.children && Bare(d) == Bare(c);
        assert c.parentID == Bare(c).parentID == d.parentID;
      }
    }
  }

  lemma {:induction false} SortForestSorted(ms: seq<Menu>)
    ensures SortedForest(SortForest(ms))
    decreases Height(ms)
  {
    SortForestMembers(ms);
    SortForestOrdered(ms);
    forall x | x in SortForest(ms) ensures SortedForest(x.children) {
      var m :| m in ms && Bare(m) == Bare(x) && x.children == SortForest(m.children);
      SortForestSorted(m.children);
    }
  }

  lemma {:induction false} ShownBagHas(items: seq<Menu>, m: nat, i: nat)
    requires i < m <= |items| && Shown(items, i)
    ensures Bare(items[i]) in ShownBag(items, m)
  {
    if i < m - 1 {
      ShownBagHas(items, m - 1, i);
    }
  }

  lemma {:induction false} ShownBagFrom(items: seq<Menu>, m: nat, x: Menu) returns (i: nat)
    requires m <= |items| && x in ShownBag(items, m)
    ensures i < m && Shown(items, i) && x == Bare(items[i])
  {
    var k: nat := m - 1;
    if x in ShownBag(items, k) {
      i := ShownBagFrom(items, k, x);
    } else {
      assert Shown(items, k);
      i := k;
    }
  }

  lemma {:induction false} ShownBagDistinct(items: seq<Menu>, m: nat)
    requires m <= |items| && DistinctIDs(items)
    ensures DistinctBag(ShownBag(items, m))
  {
    if m == 0 {
      EmptyDistinct();
    } else {
      var k := m - 1;
      ShownBagDistinct(items, k);
      DistinctStep(items, k);
    }
  }

  lemma EmptyDistinct()
    ensures DistinctBag(multiset{})
  {
  }

  lemma DistinctStep(items: seq<Menu>, m: nat)
    requires m < |items| && DistinctIDs(items) && DistinctBag(ShownBag(items, m))
    ensures DistinctBag(ShownBag(items, m + 1))
  {
    NewToShownBag(items, m);
    AddDistinct(ShownBag(items, m), Bare(items[m]));
    assert ShownBag(items, m) + multiset{} == ShownBag(items, m);
  }

  lemma NewToShownBag(items: seq<Menu>, m: nat)
    requires m < |items| && DistinctIDs(items)
    ensures forall x | x in ShownBag(items, m) :: x.id != Bare(items[m]).id
  {
    forall x | x in ShownBag(items, m) ensures x.id != items[m].id {
      var i := ShownBagFrom(items, m, x);
    }
  }

  lemma AddDistinct(b: multiset<Menu>, y: Menu)
    requires DistinctBag(b) && forall x | x in b :: x.id != y.id
    ensures DistinctBag(b + multiset{y})
  {
  }

  /** For distinct IDs the builder returns a well-formed forest. */
  lemma ForestWellFormed(items: seq<Menu>)
    requires DistinctIDs(items)
    ensures WellFormed(Forest(items))
  {
    var f, roots := Forest(items), Roots(items, |items|);
    RootsNested(items, |items|);
    SortForestNested(roots);
    SortForestSorted(roots);
    ForestHoldsExactlyTheShown(items);
    ShownBagDistinct(items, |items|);
    SortForestMembers(roots);
    forall m | m in f ensures Rootless(m, Bag(f)) {
      var r :| r in roots && Bare(r) == Bare(m);
      var i := RootsAreRoots(items, |items|, r);
      assert m.parentID == Bare(m).parentID == items[i].parentID;
      forall x | x in Bag(f) && m.parentID != 0 ensures x.id != m.parentID {
        var k := ShownBagFrom(items, |items|, x);
      }
    }
  }

  // --------------------------------------------------------- the nodes of a forest

  /** Every node of the forest, with its children. */
  ghost function Nodes(ms: seq<Menu>): set<Menu> {
    if ms == [] then {}
    else {ms[0]} + Nodes(ms[0].children) + Nodes(ms[1..])
  }

  lemma {:induction false} NodesTop(ms: seq<Menu>)
    ensures forall m | m in ms :: m in Nodes(ms)
  {
    if ms != [] {
      NodesTop(ms[1..]);
      assert ms == [ms[0]] + ms[1..];
    }
  }

  lemma {:induction false} NodesClosed(ms: seq<Menu>, m: Menu)
    requires m in Nodes(ms)
    ensures forall c | c in m.children :: c in Nodes(ms)
  {
    if m == ms[0] {
      NodesTop(m.children);
    } else if m in Nodes(ms[0].children) {
      NodesClosed(ms[0].children, m);
    } else {
      NodesClosed(ms[1..], m);
    }
  }

  /** A node is at the top level or a child of another node. */
  lemma {:induction false} NodesAreTopOrChild(ms: seq<Menu>, c: Menu)
    requires c in Nodes(ms)
    ensures c in ms || exists m | m in Nodes(ms) :: c in m.children
  {
    if c == ms[0] {
    } else if c in Nodes(ms[0].children) {
      NodesAreTopOrChild(ms[0].children, c);
      if c in ms[0].children {
        assert ms[0] in Nodes(ms);
      }
    } else {
      NodesAreTopOrChild(ms[1..], c);
    }
  }

  lemma {:induction false} NodesAreTheBag(ms: seq<Menu>)
    ensures forall m | m in Nodes(ms) :: Bare(m) in Bag(ms)
    ensures forall x | x in Bag(ms) :: exists m | m in Nodes(ms) :: Bare(m) == x
  {
    if ms != [] {
      NodesAreTheBag(ms[0].children);
      NodesAreTheBag(ms[1..]);
      assert ms[0] in Nodes(ms);
      assert BagOf(ms[0]) == multiset{Bare(ms[0])} + Bag(ms[0].children);
    }
  }

  /** A menu counted once does not lie in two disjoint parts. */
  lemma NotInBothParts(a: multiset<Menu>, b: multiset<Menu>, c: multiset<Menu>, x: Menu, y: Menu)
    requires DistinctBag(a + b + c) && x.id == y.id
    ensures !(x in a && y in b) && !(x in b && y in c) && !(x in a && y in c)
  {
    var all := a + b + c;
    if x in all && y in all {
      assert x == y && all[x] == 1;
    }
  }

  /** Where a node of the forest lies, and its bare form in the bag of that part. */
  lemma PartOfNode(ms: seq<Menu>, m: Menu)
    requires m in Nodes(ms)
    ensures Bag(ms) == multiset{Bare(ms[0])} + Bag(ms[0].children) + Bag(ms[1..])
    ensures
      || m == ms[0]
      || (m in Nodes(ms[0].children) && Bare(m) in Bag(ms[0].children))
      || (m in Nodes(ms[1..]) && Bare(m) in Bag(ms[1..]))
  {
    NodesAreTheBag(ms[0].children);
    NodesAreTheBag(ms[1..]);
  }

  lemma {:induction false} NodeByID(ms: seq<Menu>, m: Menu, n: Menu)
    requires DistinctBag(Bag(ms)) && m in Nodes(ms) && n in Nodes(ms) && m.id == n.id
    ensures m == n
  {
    var b0, b1, b2 := multiset{Bare(ms[0])}, Bag(ms[0].children), Bag(ms[1..]);
    PartOfNode(ms, m);
    PartOfNode(ms, n);
    NotInBothParts(b0, b1, b2, Bare(m), Bare(n));
    NotInBothParts(b0, b1, b2, Bare(n), Bare(m));
    if m in Nodes(ms[0].children) && n in Nodes(ms[0].children) {
      SubBagDistinct(b1, Bag(ms));
      NodeByID(ms[0].children, m, n);
    } else if m in Nodes(ms[1..]) && n in Nodes(ms[1..]) {
      SubBagDistinct(b2, Bag(ms));
      NodeByID(ms[1..], m, n);
    }
  }

  lemma {:induction false} NestedNode(ms: seq<Menu>, m: Menu)
    requires Nested(ms) && m in Nodes(ms)
    ensures ChildrenOf(m.id, m.children)
  {
    assert ms[0] in ms;
    if m == ms[0] {
    } else if m in Nodes(ms[0].children) {
      NestedNode(ms[0].children, m);
    } else {
      NestedNode(ms[1..], m);
    }
  }

  lemma {:induction false} SortedNode(ms: seq<Menu>, m: Menu)
    requires SortedForest(ms) && m in Nodes(ms)
    ensures SortedSiblings(m.children)
  {
    assert ms[0] in ms;
    if m == ms[0] {
    } else if m in Nodes(ms[0].children) {
      SortedNode(ms[0].children, m);
    } else {
      SortedNode(ms[1..], m);
    }
  }

  // ------------------------------------------------------------- only one forest

  ghost function Bares(ms: seq<Menu>): (r: seq<Menu>)
    ensures |r| == |ms| && forall i | 0 <= i < |ms| :: r[i] == Bare(ms[i])
  {
    if ms == [] then [] else [Bare(ms[0])] + Bares(ms[1..])
  }

  ghost predicate StrictlySorted(ms: seq<Menu>) {
    Strict(ms, BEFORE)
  }

  lemma SortedByMembers(a: seq<Menu>, b: seq<Menu>)
    requires StrictlySorted(a) && StrictlySorted(b)
    requires forall x :: x in a <==> x in b
    ensures a == b
  {
    StrictUnique(a, b, BEFORE);
  }

  lemma ChildHasParent(f: seq<Menu>, m: Menu, c: Menu)
    requires WellFormed(f) && m in Nodes(f) && c in m.children
    ensures Bare(c) in Bag(f) && c.parentID == m.id && m.id != 0
  {
    NodesAreTheBag(f);
    NestedNode(f, m);
    NodesClosed(f, m);
  }

  /** Siblings are the menus of the bag with their parent's ID. */
  lemma ChildrenAreAllWithParent(f: seq<Menu>, m: Menu, x: Menu)
    requires WellFormed(f) && m in Nodes(f)
    ensures x in Bares(m.children) <==> x in Bag(f) && x.parentID == m.id && m.id != 0
  {
    if x in Bares(m.children) {
      var i :| 0 <= i < |m.children| && Bare(m.children[i]) == x;
      ChildHasParent(f, m, m.children[i]);
    }
    if x in Bag(f) && x.parentID == m.id && m.id != 0 {
      BareChildOf(f, m, x);
    }
  }

  lemma BareChildOf(f: seq<Menu>, m: Menu, x: Menu)
    requires WellFormed(f) && m in Nodes(f) && x in Bag(f) && x.parentID == m.id && m.id != 0
    ensures x in Bares(m.children)
  {
    NodesAreTheBag(f);
    var c :| c in Nodes(f) && Bare(c) == x;
    WithParentIsChild(f, m, c);
    var i :| 0 <= i < |m.children| && m.children[i] == c;
    assert Bares(m.children)[i] == x;
  }

  lemma WithParentIsChild(f: seq<Menu>, m: Menu, c: Menu)
    requires WellFormed(f) && m in Nodes(f) && c in Nodes(f)
    requires c.parentID == m.id && m.id != 0
    ensures c in m.children
  {
    NodesAreTopOrChild(f, c);
    NodesAreTheBag(f);
    assert Bare(m) in Bag(f) && Bare(m).id == c.parentID;
    if c !in f {
      var q :| q in Nodes(f) && c in q.children;
      NestedNode(f, q);
      NodeByID(f, m, q);
    }
  }

  lemma TopIsAllWithoutParent(f: seq<Menu>, x: Menu)
    requires WellFormed(f)
    ensures x in Bares(f) <==> x in Bag(f) && Rootless(x, Bag(f))
  {
    NodesAreTheBag(f);
    NodesTop(f);
    if x in Bares(f) {
      var i :| 0 <= i < |f| && Bare(f[i]) == x;
      assert f[i] in f;
    }
    if x in Bag(f) && Rootless(x, Bag(f)) {
      var c :| c in Nodes(f) && Bare(c) == x;
      NodesAreTopOrChild(f, c);
      if c !in f {
        var q :| q in Nodes(f) && c in q.children;
        NestedNode(f, q);
        assert false;
      }
      var i :| 0 <= i < |f| && f[i] == c;
      assert Bares(f)[i] == x;
    }
  }

  lemma SubBagDistinct(a: multiset<Menu>, b: multiset<Menu>)
    requires a <= b && DistinctBag(b)
    ensures DistinctBag(a)
  {
    forall x | x in a ensures a[x] == 1 {
      assert x in b && b[x] == 1;
    }
  }

  lemma {:induction false} NodeBag(ms: seq<Menu>, m: Menu)
    requires m in Nodes(ms)
    ensures Bag(m.children) <= Bag(ms)
  {
    assert Bag(ms) == multiset{Bare(ms[0])} + Bag(ms[0].children) + Bag(ms[1..]);
    if m == ms[0] {
    } else if m in Nodes(ms[0].children) {
      NodeBag(ms[0].children, m);
    } else {
      NodeBag(ms[1..], m);
    }
  }

  lemma {:induction false} InBag(ms: seq<Menu>, i: nat)
    requires i < |ms|
    ensures Bare(ms[i]) in Bag(ms)
  {
    if i > 0 {
      InBag(ms[1..], i - 1);
    }
  }

  lemma {:induction false} SiblingIDsDiffer(ms: seq<Menu>, i: nat, j: nat)
    requires i < j < |ms| && DistinctBag(Bag(ms))
    ensures ms[i].id != ms[j].id
  {
    var rest := Bag(ms[1..]);
    assert Bag(ms) == multiset{Bare(ms[0])} + Bag(ms[0].children) + rest;
    if i == 0 {
      var x, y := Bare(ms[0]), Bare(ms[j]);
      InBag(ms[1..], j - 1);
      assert x in Bag(ms) && y in Bag(ms);
      assert Bag(ms)[x] == 1;
    } else {
      SubBagDistinct(rest, Bag(ms));
      SiblingIDsDiffer(ms[1..], i - 1, j - 1);
    }
  }

  /** Sorted siblings without repeated IDs are strictly sorted. */
  lemma SiblingsStrict(ms: seq<Menu>)
    requires SortedSiblings(ms) && DistinctBag(Bag(ms))
    ensures StrictlySorted(Bares(ms))
  {
    forall i, j | 0 <= i < j < |ms| ensures Before(Bares(ms)[i], Bares(ms)[j]) {
      assert !Before(ms[j], ms[i]);
      SiblingIDsDiffer(ms, i, j);
    }
  }

  /** Equal bare siblings have equal children, and so on down. */
  lemma {:induction false} SameBelow(f: seq<Menu>, g: seq<Menu>, a: seq<Menu>, b: seq<Menu>)
    requires WellFormed(f) && WellFormed(g) && Bag(f) == Bag(g)
    requires (forall m | m in a :: m in Nodes(f)) && (forall m | m in b :: m in Nodes(g))
    requires Bares(a) == Bares(b)
    ensures a == b
    decreases Height(a)
  {
    forall k | 0 <= k < |a| ensures a[k] == b[k] {
      var m, n := a[k], b[k];
      assert m in a && n in b;
      assert Bare(m) == Bares(a)[k] == Bares(b)[k] == Bare(n);
      assert m.id == Bare(m).id == n.id;
      SameChildren(f, g, m, n);
      NodesClosed(f, m);
      NodesClosed(g, n);
      SameBelow(f, g, m.children, n.children);
    }
  }

  lemma SameChildren(f: seq<Menu>, g: seq<Menu>, m: Menu, n: Menu)
    requires WellFormed(f) && WellFormed(g) && Bag(f) == Bag(g)
    requires m in Nodes(f) && n in Nodes(g) && m.id == n.id
    ensures Bares(m.children) == Bares(n.children)
  {
    forall x ensures x in Bares(m.children) <==> x in Bares(n.children) {
      ChildrenAreAllWithParent(f, m, x);
      ChildrenAreAllWithParent(g, n, x);
    }
    ChildrenStrict(f, m);
    ChildrenStrict(g, n);
    SortedByMembers(Bares(m.children), Bares(n.children));
  }

  lemma ChildrenStrict(f: seq<Menu>, m: Menu)
    requires WellFormed(f) && m in Nodes(f)
    ensures StrictlySorted(Bares(m.children))
  {
    SortedNode(f, m);
    NodeBag(f, m);
    SubBagDistinct(Bag(m.children), Bag(f));
    SiblingsStrict(m.children);
  }

  /** A well-formed forest is determined by the menus in it. */
  lemma SameMenusSameForest(f: seq<Menu>, g: seq<Menu>)
    requires WellFormed(f) && WellFormed(g) && Bag(f) == Bag(g)
    ensures f == g
  {
    forall x ensures x in Bares(f) <==> x in Bares(g) {
      TopIsAllWithoutParent(f, x);
      TopIsAllWithoutParent(g, x);
    }
    SiblingsStrict(f);
    SiblingsStrict(g);
    SortedByMembers(Bares(f), Bares(g));
    NodesTop(f);
    NodesTop(g);
    SameBelow(f, g, f, g);
  }

  /** Two lists of the same menus from which nothing is lost give the same forest. */
  lemma OrderDoesNotMatter(items: seq<Menu>, others: seq<Menu>)
    requires DistinctIDs(items) && DistinctIDs(others)
    requires ListBag(items, |items|) == ListBag(others, |others|)
    requires AllShown(items) && AllShown(others)
    ensures Forest(items) == Forest(others)
  {
    NothingLostIffAllShown(items);
    NothingLostIffAllShown(others);
    ForestWellFormed(items);
    ForestWellFormed(others);
    SameMenusSameForest(Forest(items), Forest(others));
  }

  /** For two-level lists the order never matters. */
  lemma TwoLevelOrderDoesNotMatter(items: seq<Menu>, others: seq<Menu>)
    requires DistinctIDs(items) && DistinctIDs(others)
    requires ListBag(items, |items|) == ListBag(others, |others|)
    requires TwoLevels(items) && TwoLevels(others)
    ensures Forest(items) == Forest(others)
  {
    OrderDoesNotMatter(items, others);
  }
}
