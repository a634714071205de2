/**
 `ListMenus` against the stored parent pointers, and the cycle check that the
 service runs on its result before every menu update.
 */
module MenuListing {
  import opened Domain
  import opened MenuTree
  import opened MenuSurvival
  import opened MenuForest
  import opened MenuStore
  import opened Paging
  import opened Sorting
  import opened Tables

  /** The list holds every stored menu once, in some order; stored IDs are positive. */
  ghost predicate Lists(items: seq<Menu>, rows: Rows) {
    && 0 !in rows
    && DistinctIDs(items)
    && (forall i | 0 <= i < |items| :: items[i].id in rows && rows[items[i].id] == items[i])
    && (forall id | id in rows :: IndexOf(items, id) != -1)
  }

  // ----------------------------------------------------------- the service's check

  predicate TreeContainsID(items: seq<Menu>, id: nat) {
    exists m | m in items :: m.id == id || TreeContainsID(m.children, id)
  }

  /** `menuTreeContainsDescendant`: looks for `rootID` and then below it for `candidateID`. */
  predicate TreeContainsDescendant(items: seq<Menu>, rootID: nat, candidateID: nat) {
    if rootID == 0 || candidateID == 0 || items == [] then false
    else if items[0].id == rootID then TreeContainsID(items[0].children, candidateID)
    else
      TreeContainsDescendant(items[0].children, rootID, candidateID) ||
      TreeContainsDescendant(items[1..], rootID, candidateID)
  }

  lemma {:induction false} ContainsIDIsNode(items: seq<Menu>, id: nat)
    ensures TreeContainsID(items, id) <==> exists m | m in Nodes(items) :: m.id == id
    decreases Height(items)
  {
    if TreeContainsID(items, id) {
      var m :| m in items && (m.id == id || TreeContainsID(m.children, id));
      NodesTop(items);
      if m.id != id {
        ContainsIDIsNode(m.children, id);
        NodesBelow(items, m);
      }
    }
    if exists n | n in Nodes(items) :: n.id == id {
      var n :| n in Nodes(items) && n.id == id;
      var m := NodeUnderTop(items, n);
      if n != m {
        ContainsIDIsNode(m.children, id);
      }
    }
  }

  /** The nodes below a node are nodes of the forest. */
  lemma {:induction false} NodesBelow(f: seq<Menu>, m: Menu)
    requires m in Nodes(f)
    ensures Nodes(m.children) <= Nodes(f)
  {
    if m == f[0] {
    } else if m in Nodes(f[0].children) {
      NodesBelow(f[0].children, m);
    } else {
      NodesBelow(f[1..], m);
    }
  }

  lemma {:induction false} NodeUnderTop(f: seq<Menu>, n: Menu) returns (m: Menu)
    requires n in Nodes(f)
    ensures m in f && (n == m || n in Nodes(m.children))
  {
    if n == f[0] || n in Nodes(f[0].children) {
      m := f[0];
    } else {
      m := NodeUnderTop(f[1..], n);
    }
  }

  /** In a forest without repeated IDs the check finds the one node with the root ID
      and answers whether the candidate is below it. */
  lemma {:induction false} ContainsDescendantIsBelow(f: seq<Menu>, rootID: nat, candidateID: nat)
    requires DistinctBag(Bag(f)) && rootID != 0 && candidateID != 0
    ensures TreeContainsDescendant(f, rootID, candidateID) <==>
      exists m | m in Nodes(f) :: m.id == rootID && TreeContainsID(m.children, candidateID)
  {
    if f != [] {
      var b0, b1, b2 := multiset{Bare(f[0])}, Bag(f[0].children), Bag(f[1..]);
      assert Bag(f) == b0 + b1 + b2;
      SubBagDistinct(b1, Bag(f));
      SubBagDistinct(b2, Bag(f));
      if f[0].id == rootID {
        assert f[0] in Nodes(f);
        forall m | m in Nodes(f) && m.id == rootID ensures m == f[0] {
          NodeByID(f, m, f[0]);
        }
      } else {
        ContainsDescendantIsBelow(f[0].children, rootID, candidateID);
        ContainsDescendantIsBelow(f[1..], rootID, candidateID);
      }
    }
  }

  // ------------------------------------------- nodes of the forest and stored menus

  /** Every node of the built forest is a stored menu, with its stored parent. */
  lemma NodeIsStored(items: seq<Menu>, rows: Rows, m: Menu) returns (i: nat)
    requires Lists(items, rows) && m in Nodes(Forest(items))
    ensures i < |items| && Shown(items, i) && items[i].id == m.id
    ensures m.id in rows && rows[m.id].parentID == m.parentID
  {
    ForestHoldsExactlyTheShown(items);
    NodesAreTheBag(Forest(items));
    i := ShownBagFrom(items, |items|, Bare(m));
    assert m.id == Bare(m).id && m.parentID == Bare(m).parentID;
  }

  lemma ShownHasNode(items: seq<Menu>, i: nat) returns (m: Menu)
    requires i < |items| && Shown(items, i)
    ensures m in Nodes(Forest(items)) && m.id == items[i].id && m.parentID == items[i].parentID
  {
    ForestHoldsExactlyTheShown(items);
    ShownBagHas(items, |items|, i);
    NodesAreTheBag(Forest(items));
    m :| m in Nodes(Forest(items)) && Bare(m) == Bare(items[i]);
    assert m.id == Bare(m).id && m.parentID == Bare(m).parentID;
  }

  /** What lies below a node has the node as an ancestor in the store. */
  lemma {:induction false} BelowIsDescendant(items: seq<Menu>, rows: Rows, m: Menu, id: nat)
    requires Lists(items, rows) && m in Nodes(Forest(items)) && TreeContainsID(m.children, id)
    ensures HasAncestor(rows, id, m.id)
    decreases Height(m.children)
  {
    var f := Forest(items);
    ForestWellFormed(items);
    NodesClosed(f, m);
    NestedNode(f, m);
    var c :| c in m.children && (c.id == id || TreeContainsID(c.children, id));
    var i := NodeIsStored(items, rows, c);
    assert Climbs(rows, c.id, m.id, 1);
    if c.id != id {
      BelowIsDescendant(items, rows, c, id);
      var n: nat :| n > 0 && Climbs(rows, id, c.id, n);
      ClimbsCompose(rows, id, c.id, m.id, n, 1);
    }
  }

  ghost predicate InForest(items: seq<Menu>, c: Menu) {
    c in Nodes(Forest(items))
  }

  /** The node `c` lies below a node with this ID. */
  ghost predicate LiesBelow(items: seq<Menu>, c: Menu, id: nat) {
    exists m | InForest(items, m) :: m.id == id && c in Nodes(m.children)
  }

  /** The node is a stored menu from which `n` parents up is `id`. */
  ghost predicate ReachesIn(items: seq<Menu>, rows: Rows, c: Menu, id: nat, n: nat) {
    Lists(items, rows) && InForest(items, c) && id in rows && Climbs(rows, c.id, id, n)
  }

  /** The first stop on the way up from a node is the node it is a child of. */
  lemma ParentOnTheWay(items: seq<Menu>, rows: Rows, c: Menu, id: nat, n: nat) returns (q: Menu)
    requires ReachesIn(items, rows, c, id, n + 1)
    ensures ReachesIn(items, rows, q, id, n) && InForest(items, q) && c in q.children && (n == 0 ==> q.id == id)
  {
    var i := NodeIsStored(items, rows, c);
    assert Climbs(rows, c.parentID, id, n);
    assert c.parentID in rows;
    q := ParentNode(items, rows, c);
  }

  lemma LiesBelowFurther(items: seq<Menu>, c: Menu, q: Menu, id: nat)
    requires InForest(items, q) && c in q.children && (q.id == id || LiesBelow(items, q, id))
    ensures LiesBelow(items, c, id)
  {
    NodesTop(q.children);
    if q.id != id {
      var m :| InForest(items, m) && m.id == id && q in Nodes(m.children);
      NodesBelow(m.children, q);
    }
  }

  /** A shown menu lies below the node of each of its ancestors. */
  lemma {:induction false} DescendantIsBelow(items: seq<Menu>, rows: Rows, c: Menu, id: nat, n: nat)
    requires n > 0 && ReachesIn(items, rows, c, id, n)
    ensures LiesBelow(items, c, id)
    decreases n
  {
    var k: nat := n - 1;
    var q := ParentOnTheWay(items, rows, c, id, k);
    if k > 0 {
      DescendantIsBelow(items, rows, q, id, k);
    }
    LiesBelowFurther(items, c, q, id);
  }

  /** A node whose stored parent is stored too is a child of its parent's node. */
  lemma ParentNode(items: seq<Menu>, rows: Rows, c: Menu) returns (q: Menu)
    requires Lists(items, rows) && c in Nodes(Forest(items))
    requires c.parentID != 0 && c.parentID in rows
    ensures q in Nodes(Forest(items)) && q.id == c.parentID && c in q.children
  {
    var f := Forest(items);
    ForestWellFormed(items);
    NodesAreTopOrChild(f, c);
    if c in f {
      TopIsRoot(items, c);
      assert false;
    }
    q :| q in Nodes(f) && c in q.children;
    NestedNode(f, q);
  }

  lemma TopIsRoot(items: seq<Menu>, c: Menu)
    requires c in Forest(items)
    ensures c.parentID == 0 || IndexOf(items, c.parentID) == -1
  {
    var roots := Roots(items, |items|);
    SortForestMembers(roots);
    var r :| r in roots && Bare(r) == Bare(c);
    var i := RootsAreRoots(items, |items|, r);
    assert c.parentID == Bare(c).parentID == items[i].parentID;
  }

  lemma ShownDescendantIsFound(items: seq<Menu>, rows: Rows, id: nat, parent: nat)
    requires Lists(items, rows) && id in rows && parent in rows
    requires Shown(items, IndexOf(items, parent)) && HasAncestor(rows, parent, id)
    ensures exists m | m in Nodes(Forest(items)) :: m.id == id && TreeContainsID(m.children, parent)
  {
    var n: nat :| n > 0 && Climbs(rows, parent, id, n);
    var c := ShownHasNode(items, IndexOf(items, parent));
    DescendantIsBelow(items, rows, c, id, n);
    BelowIsFound(items, c, id);
  }

  lemma BelowIsFound(items: seq<Menu>, c: Menu, id: nat)
    requires LiesBelow(items, c, id)
    ensures exists m | m in Nodes(Forest(items)) :: m.id == id && TreeContainsID(m.children, c.id)
  {
    var m :| InForest(items, m) && m.id == id && c in Nodes(m.children);
    ContainsIDIsNode(m.children, c.id);
  }

  /** The service's check refuses a new parent exactly when that parent is listed and
      the menu is one of its ancestors. */
  lemma ServiceCheckMeaning(items: seq<Menu>, rows: Rows, id: nat, parent: nat)
    requires Lists(items, rows) && id in rows && parent in rows
    ensures TreeContainsDescendant(Forest(items), id, parent) <==>
      Shown(items, IndexOf(items, parent)) && HasAncestor(rows, parent, id)
  {
    var f, i := Forest(items), IndexOf(items, parent);
    ForestWellFormed(items);
    ContainsDescendantIsBelow(f, id, parent);
    if TreeContainsDescendant(f, id, parent) {
      var m :| m in Nodes(f) && m.id == id && TreeContainsID(m.children, parent);
      BelowIsDescendant(items, rows, m, parent);
      ContainsIDIsNode(m.children, parent);
      NodesBelow(f, m);
      var c :| c in Nodes(m.children) && c.id == parent;
      var k := NodeIsStored(items, rows, c);
      assert k == i;
    }
    if Shown(items, i) && HasAncestor(rows, parent, id) {
      ShownDescendantIsFound(items, rows, id, parent);
    }
  }

  /** The two cycle checks are consistent: whatever the service refuses, the store
      would have refused too, for every order in which the menus were listed. */
  lemma ServiceRejectionImpliesStoreRejection(items: seq<Menu>, t: Table<Menu>, id: nat, update: Menu)
    requires IsForest(t) && Lists(items, t.rows) && id in t.rows
    requires update.parentID == id || TreeContainsDescendant(Forest(items), id, update.parentID)
    ensures UpdateError(t.rows, id, update) == Some(Conflict)
  {
    var parent := update.parentID;
    if parent != id {
      ForestWellFormed(items);
      ContainsDescendantIsBelow(Forest(items), id, parent);
      var m :| m in Nodes(Forest(items)) && m.id == id && TreeContainsID(m.children, parent);
      BelowIsDescendant(items, t.rows, m, parent);
      var n: nat :| n > 0 && Climbs(t.rows, parent, id, n);
    }
  }

  // ------------------------------------------------------- which menus are listed

  /** Going up from the menu, every step below the last one before the root is a step up
      in `less`; `n` bounds the climb. */
  ghost predicate Rises(rows: Rows, less: (Menu, Menu) -> bool, id: nat, n: nat)
    requires id in rows
    decreases n
  {
    var p := rows[id].parentID;
    p == 0 || (p in rows &&
    (rows[p].parentID == 0 || (n > 0 && less(rows[id], rows[p]) && Rises(rows, less, p, n - 1))))
  }

  /** When `less` forces the list order, a menu that rises in `less` is listed. */
  lemma {:induction false} RisingIsShown(items: seq<Menu>, rows: Rows, less: (Menu, Menu) -> bool, i: nat, n: nat)
    requires Lists(items, rows) && i < |items| && Rises(rows, less, items[i].id, n)
    requires forall j, k | 0 <= j < |items| && 0 <= k < |items| && less(items[j], items[k]) :: j < k
    ensures Shown(items, i)
    decreases n
  {
    var p := ParentIndex(items, i);
    if p != -1 && !IsRoot(items, p) {
      assert items[p] == rows[items[i].parentID];
      RisingIsShown(items, rows, less, p, n - 1);
    }
  }

  /** When the list is in the order of `less`, a listed menu rises in it. */
  lemma {:induction false} ShownIsRising(items: seq<Menu>, rows: Rows, less: (Menu, Menu) -> bool, i: nat, n: nat)
    requires Lists(items, rows) && i < |items| && Shown(items, i)
    requires Climbs(rows, items[i].id, 0, n)
    requires forall j, k | 0 <= j < k < |items| :: less(items[j], items[k])
    ensures Rises(rows, less, items[i].id, n)
    decreases n
  {
    var p := ParentIndex(items, i);
    if p != -1 {
      assert items[p] == rows[items[i].parentID];
      if !IsRoot(items, p) {
        ShownIsRising(items, rows, less, p, n - 1);
      } else {
        assert Climbs(rows, items[p].id, 0, n - 1);
        assert n > 1 && Climbs(rows, items[p].parentID, 0, n - 2);
      }
    }
  }

  /** A menu is in the returned forest exactly when it is shown. */
  lemma ListedIffShown(items: seq<Menu>, rows: Rows, id: nat)
    requires Lists(items, rows) && id in rows
    ensures TreeContainsID(Forest(items), id) <==> Shown(items, IndexOf(items, id))
  {
    ContainsIDIsNode(Forest(items), id);
    if TreeContainsID(Forest(items), id) {
      var m :| m in Nodes(Forest(items)) && m.id == id;
      var i := NodeIsStored(items, rows, m);
    }
    if Shown(items, IndexOf(items, id)) {
      var m := ShownHasNode(items, IndexOf(items, id));
    }
  }

  const SORTS_LOWER := (a: Menu, b: Menu) => a.sort < b.sort
  const SORTS_NO_HIGHER := (a: Menu, b: Menu) => a.sort <= b.sort

  /** The order in which the memory store hands its menus to the builder: by sort
      value, equal sort values in any order. */
  ghost predicate InSortOrder(items: seq<Menu>) {
    Ordered(items, SORTS_LOWER)
  }

  const ANY_MENU := (m: Menu) => true

  /** Sorting the menus that were collected from the map gives a list of all of them. */
  lemma SortedLists(t: Table<Menu>, found: seq<Menu>, before: (Menu, Menu) -> bool)
    requires Numbered(t, MENU_ID) && Gathered(t, MENU_ID, ANY_MENU, {}, found)
    ensures Lists(Sort(found, before), t.rows)
  {
    var items := Sort(found, before);
    SortMembers(found, before);
    SortDifferent(found, before, MENU_ID);
    forall i | 0 <= i < |items| ensures items[i].id in t.rows && t.rows[items[i].id] == items[i] {
      assert items[i] in items;
      assert MENU_ID(items[i]) == items[i].id;
    }
    forall id | id in t.rows ensures IndexOf(items, id) != -1 {
      assert ANY_MENU(t.rows[id]) && MENU_ID(t.rows[id]) == id;
      assert t.rows[id] in items;
    }
    forall i, j | 0 <= i < j < |items| ensures items[i].id != items[j].id {
      assert MENU_ID(items[i]) != MENU_ID(items[j]);
    }
  }

  /** A listing of the memory store: the forest of all stored menus in some order of their sort
      values. */
  ghost predicate IsListing(tree: seq<Menu>, rows: Rows) {
    exists items :: Lists(items, rows) && InSortOrder(items) && tree == Forest(items)
  }

  /** The memory store lists a menu if sort values strictly increase going up from it to the
      level below the root, and only if they nowhere decrease. `MenuOrders` closes the gap. */
  lemma MemoryListing(items: seq<Menu>, t: Table<Menu>, id: nat, n: nat)
    requires IsForest(t) && Lists(items, t.rows) && InSortOrder(items)
    requires id in t.rows && Climbs(t.rows, id, 0, n)
    ensures Rises(t.rows, SORTS_LOWER, id, n) ==> TreeContainsID(Forest(items), id)
    ensures TreeContainsID(Forest(items), id) ==> Rises(t.rows, SORTS_NO_HIGHER, id, n)
  {
    var i := IndexOf(items, id);
    ListedIffShown(items, t.rows, id);
    if Rises(t.rows, SORTS_LOWER, id, n) {
      RisingIsShown(items, t.rows, SORTS_LOWER, i, n);
    }
    if Shown(items, i) {
      ShownIsRising(items, t.rows, SORTS_NO_HIGHER, i, n);
    }
  }

  lemma BeforeIsListOrder(items: seq<Menu>)
    requires StrictlySorted(items)
    ensures forall j, k | 0 <= j < |items| && 0 <= k < |items| :: BEFORE(items[j], items[k]) <==> j < k
  {
    forall j, k | 0 <= j < |items| && 0 <= k < |items| ensures BEFORE(items[j], items[k]) <==> j < k {
      if j > k {
        assert Before(items[k], items[j]);
      }
    }
  }

  /** The SQL adapter, which orders by sort value and ID, lists a menu exactly when that
      pair strictly increases going up from it to the level below the root. */
  lemma SqlListing(items: seq<Menu>, t: Table<Menu>, id: nat, n: nat)
    requires IsForest(t) && Lists(items, t.rows) && StrictlySorted(items)
    requires id in t.rows && Climbs(t.rows, id, 0, n)
    ensures TreeContainsID(Forest(items), id) <==> Rises(t.rows, BEFORE, id, n)
  {
    var i := IndexOf(items, id);
    ListedIffShown(items, t.rows, id);
    BeforeIsListOrder(items);
    if Rises(t.rows, BEFORE, id, n) {
      RisingIsShown(items, t.rows, BEFORE, i, n);
    }
    if Shown(items, i) {
      ShownIsRising(items, t.rows, BEFORE, i, n);
    }
  }

  /** A menu sorted after a parent that is not itself a root is missing from every listing,
      and the service's cycle check is blind to it. */
  lemma DeepMenuSortedAfterItsParentIsLost(items: seq<Menu>, t: Table<Menu>, id: nat, ancestor: nat)
    requires IsForest(t) && Lists(items, t.rows) && InSortOrder(items)
    requires id in t.rows && ancestor in t.rows
    requires var p := t.rows[id].parentID;
      p in t.rows && t.rows[p].parentID != 0 && t.rows[p].sort < t.rows[id].sort
    ensures !TreeContainsID(Forest(items), id)
    ensures !TreeContainsDescendant(Forest(items), ancestor, id)
  {
    var n: nat :| Climbs(t.rows, id, 0, n);
    MemoryListing(items, t, id, n);
    ListedIffShown(items, t.rows, id);
    ServiceCheckMeaning(items, t.rows, ancestor, id);
  }
}
