/**
 What the menu operations return, read off the fields of the menus: the order of
 siblings, the fields of every node, what is listed, and what a user gets to see.
 */
module MenuMeaning {
  import opened Domain
  import opened MenuFilter
  import opened MenuForest
  import opened MenuListing
  import opened MenuOrders
  import opened MenuStore
  import opened MenuSurvival
  import opened MenuTree
  import opened Tables
  import opened Text

  // ------------------------------------------------------------------ the forest

  /** Siblings stand by sort value, and by ID where sort values are equal. */
  ghost predicate SiblingsInOrder(ms: seq<Menu>) {
    forall i, j | 0 <= i < j < |ms| ::
      ms[i].sort < ms[j].sort || (ms[i].sort == ms[j].sort && ms[i].id <= ms[j].id)
  }

  ghost predicate SameFields(n: Menu, m: Menu) {
    && n.id == m.id && n.parentID == m.parentID && n.title == m.title && n.name == m.name
    && n.path == m.path && n.icon == m.icon && n.component == m.component
    && n.permission == m.permission && n.sort == m.sort && n.hidden == m.hidden
  }

  lemma SameBareSameFields(n: Menu, m: Menu)
    requires Bare(n) == Bare(m)
    ensures SameFields(n, m)
  {
    var a, b := Bare(n), Bare(m);
    assert a.id == n.id && a.parentID == n.parentID && a.title == n.title && a.name == n.name && a.path == n.path;
    assert a.icon == n.icon && a.component == n.component && a.permission == n.permission;
    assert a.sort == n.sort && a.hidden == n.hidden;
  }

  lemma SortedInFields(ms: seq<Menu>)
    requires SortedSiblings(ms)
    ensures SiblingsInOrder(ms)
  {
    SortedBySortAndID(ms);
  }

  /** At the top and below every node the menus stand by sort value and ID, whatever the list. */
  lemma ForestInOrder(items: seq<Menu>)
    ensures SiblingsInOrder(Forest(items))
    ensures forall m | m in Nodes(Forest(items)) :: SiblingsInOrder(m.children)
  {
    SortForestSorted(Roots(items, |items|));
    SortedInFields(Forest(items));
    forall m | m in Nodes(Forest(items)) ensures SiblingsInOrder(m.children) {
      SortedNode(Forest(items), m);
      SortedInFields(m.children);
    }
  }

  /** Every node has all the fields of a shown menu of the list, and every shown menu has a node. */
  lemma ForestFields(items: seq<Menu>)
    ensures forall n | n in Nodes(Forest(items)) ::
      exists i | 0 <= i < |items| :: Shown(items, i) && SameFields(n, items[i])
    ensures forall i | 0 <= i < |items| && Shown(items, i) ::
      exists n | n in Nodes(Forest(items)) :: SameFields(n, items[i])
  {
    var f := Forest(items);
    ForestHoldsExactlyTheShown(items);
    NodesAreTheBag(f);
    forall n | n in Nodes(f) ensures exists i | 0 <= i < |items| :: Shown(items, i) && SameFields(n, items[i]) {
      var i := ShownBagFrom(items, |items|, Bare(n));
      SameBareSameFields(n, items[i]);
    }
    forall i | 0 <= i < |items| && Shown(items, i) ensures exists n | n in Nodes(f) :: SameFields(n, items[i]) {
      ShownBagHas(items, |items|, i);
      var n :| n in Nodes(f) && Bare(n) == Bare(items[i]);
      SameBareSameFields(n, items[i]);
    }
  }

  /** A child names its parent; a menu at the top has no parent, or one that is not in the list. */
  lemma ForestParents(items: seq<Menu>)
    ensures forall m, c | m in Nodes(Forest(items)) && c in m.children :: c.parentID == m.id && m.id != 0
    ensures forall c | c in Forest(items) ::
      c.parentID == 0 || forall i | 0 <= i < |items| :: items[i].id != c.parentID
  {
    RootsNested(items, |items|);
    SortForestNested(Roots(items, |items|));
    forall m | m in Nodes(Forest(items)) ensures ChildrenOf(m.id, m.children) {
      NestedNode(Forest(items), m);
    }
    forall c | c in Forest(items)
      ensures c.parentID == 0 || forall i | 0 <= i < |items| :: items[i].id != c.parentID
    {
      TopIsRoot(items, c);
    }
  }

  /** What `byID` says: the last menu of the list with the ID. */
  lemma {:induction false} IndexIsLast(items: seq<Menu>, id: nat, i: nat)
    requires i < |items| && items[i].id == id
    ensures i <= IndexOf(items, id)
  {
    if items[|items| - 1].id != id {
      IndexIsLast(items[..|items| - 1], id, i);
    }
  }

  /** A node of a listing is a stored menu, field by field, and siblings are in order. */
  lemma ListingMeaning(tree: seq<Menu>, rows: Rows)
    requires IsListing(tree, rows)
    ensures SiblingsInOrder(tree) && forall m | m in Nodes(tree) :: SiblingsInOrder(m.children)
    ensures forall m | m in Nodes(tree) :: m.id in rows && SameFields(m, rows[m.id])
    ensures forall m, c | m in Nodes(tree) && c in m.children :: c.parentID == m.id
  {
    var items :| Lists(items, rows) && InSortOrder(items) && tree == Forest(items);
    ForestInOrder(items);
    ForestFields(items);
    ForestParents(items);
  }

  // --------------------------------------------------------------- what is listed

  /** The menus on the way up from the first one of the chain to its root, the last one. */
  ghost predicate IsChain(rows: Rows, chain: seq<nat>) {
    && chain != []
    && (forall k | 0 <= k < |chain| :: chain[k] in rows && chain[k] != 0)
    && (forall k | 0 < k < |chain| :: rows[chain[k - 1]].parentID == chain[k])
    && rows[chain[|chain| - 1]].parentID == 0
  }

  lemma {:induction false} ChainClimbs(rows: Rows, chain: seq<nat>)
    requires IsChain(rows, chain)
    ensures Climbs(rows, chain[0], 0, |chain|)
    decreases |chain|
  {
    if |chain| == 1 {
      assert Climbs(rows, 0, 0, 0);
    } else {
      ChainClimbs(rows, chain[1..]);
    }
  }

  /** From menu `k` of the chain to the next one is a step up in `less`. */
  ghost predicate RisesAt(rows: Rows, less: (Menu, Menu) -> bool, chain: seq<nat>, k: nat)
    requires IsChain(rows, chain) && k + 1 < |chain|
  {
    less(rows[chain[k]], rows[chain[k + 1]])
  }

  ghost predicate RisesUpTo(rows: Rows, less: (Menu, Menu) -> bool, chain: seq<nat>)
    requires IsChain(rows, chain)
  {
    forall k | 0 <= k < |chain| - 2 :: RisesAt(rows, less, chain, k)
  }

  lemma RisesFromSecond(rows: Rows, less: (Menu, Menu) -> bool, chain: seq<nat>)
    requires IsChain(rows, chain) && |chain| > 2
    ensures IsChain(rows, chain[1..])
    ensures RisesUpTo(rows, less, chain) <==> RisesAt(rows, less, chain, 0) && RisesUpTo(rows, less, chain[1..])
  {
    var up := chain[1..];
    forall k | 0 <= k < |up| - 2 ensures RisesAt(rows, less, up, k) <==> RisesAt(rows, less, chain, k + 1) {
      assert up[k] == chain[k + 1] && up[k + 1] == chain[k + 2];
    }
    if RisesAt(rows, less, chain, 0) && RisesUpTo(rows, less, up) {
      forall k | 0 <= k < |chain| - 2 ensures RisesAt(rows, less, chain, k) {
        assert k > 0 ==> RisesAt(rows, less, up, k - 1);
      }
    }
    if RisesUpTo(rows, less, chain) {
      forall k | 0 <= k < |up| - 2 ensures RisesAt(rows, less, up, k) {
        assert RisesAt(rows, less, chain, k + 1);
      }
    }
  }

  lemma {:induction false} ChainRises(rows: Rows, less: (Menu, Menu) -> bool, chain: seq<nat>)
    requires IsChain(rows, chain)
    ensures Rises(rows, less, chain[0], |chain|) <==> RisesUpTo(rows, less, chain)
    decreases |chain|
  {
    assert |chain| > 1 ==> rows[chain[0]].parentID == chain[1];
    if |chain| > 2 {
      assert rows[chain[1]].parentID == chain[2];
      RisesFromSecond(rows, less, chain);
      ChainRises(rows, less, chain[1..]);
    }
  }

  ghost predicate IsListed(tree: seq<Menu>, id: nat) {
    exists m | m in Nodes(tree) :: m.id == id
  }

  lemma ListedMeaning(id: nat)
    ensures forall tree :: TreeContainsID(tree, id) <==> IsListed(tree, id)
  {
    forall tree ensures TreeContainsID(tree, id) <==> IsListed(tree, id) {
      ContainsIDIsNode(tree, id);
    }
  }

  /** The menu at the foot of a chain is in every listing of the memory store exactly when each
      menu of the chain that lies more than one below the root has a lower sort value than its
      parent. */
  lemma AlwaysListedBySort(t: Table<Menu>, chain: seq<nat>)
    requires IsForest(t) && IsChain(t.rows, chain)
    ensures (forall tree | IsListing(tree, t.rows) :: IsListed(tree, chain[0])) <==>
      forall k | 0 <= k < |chain| - 2 :: t.rows[chain[k]].sort < t.rows[chain[k + 1]].sort
  {
    ChainClimbs(t.rows, chain);
    AlwaysListed(t, chain[0], |chain|);
    ChainRises(t.rows, SORTS_LOWER, chain);
    ListedMeaning(chain[0]);
    assert forall k | 0 <= k < |chain| - 2 :: RisesAt(t.rows, SORTS_LOWER, chain, k) <==>
      t.rows[chain[k]].sort < t.rows[chain[k + 1]].sort;
  }

  /** It is in some listing exactly when none of them has a higher one. */
  lemma SometimesListedBySort(t: Table<Menu>, chain: seq<nat>)
    requires IsForest(t) && IsChain(t.rows, chain)
    ensures (exists tree | IsListing(tree, t.rows) :: IsListed(tree, chain[0])) <==>
      forall k | 0 <= k < |chain| - 2 :: t.rows[chain[k]].sort <= t.rows[chain[k + 1]].sort
  {
    ChainClimbs(t.rows, chain);
    SometimesListed(t, chain[0], |chain|);
    ChainRises(t.rows, SORTS_NO_HIGHER, chain);
    ListedMeaning(chain[0]);
    assert forall k | 0 <= k < |chain| - 2 :: RisesAt(t.rows, SORTS_NO_HIGHER, chain, k) <==>
      t.rows[chain[k]].sort <= t.rows[chain[k + 1]].sort;
  }

  /** The SQL adapter's query hands out the menus by sort value and ID. */
  ghost predicate InQueryOrder(items: seq<Menu>) {
    forall i, j | 0 <= i < j < |items| ::
      items[i].sort < items[j].sort || (items[i].sort == items[j].sort && items[i].id < items[j].id)
  }

  lemma SqlListedBySort(items: seq<Menu>, t: Table<Menu>, chain: seq<nat>)
    requires IsForest(t) && Lists(items, t.rows) && InQueryOrder(items) && IsChain(t.rows, chain)
    ensures IsListed(Forest(items), chain[0]) <==>
      forall k | 0 <= k < |chain| - 2 ::
        var m, p := t.rows[chain[k]], t.rows[chain[k + 1]];
        m.sort < p.sort || (m.sort == p.sort && m.id < p.id)
  {
    ChainClimbs(t.rows, chain);
    SqlListing(items, t, chain[0], |chain|);
    ChainRises(t.rows, BEFORE, chain);
    ContainsIDIsNode(Forest(items), chain[0]);
    assert forall k | 0 <= k < |chain| - 2 :: RisesAt(t.rows, BEFORE, chain, k) <==>
      var m, p := t.rows[chain[k]], t.rows[chain[k + 1]];
      m.sort < p.sort || (m.sort == p.sort && m.id < p.id);
  }

  // ------------------------------------------------------------ what a user sees

  /** From the menu, going down by child positions through visible menus, one arrives at a menu
      whose permission is granted, or that has none and is no layout. */
  ghost predicate OpensAlong(m: Menu, path: seq<nat>, allowed: set<string>)
    decreases |path|
  {
    !m.hidden &&
    if path != [] then path[0] < |m.children| && OpensAlong(m.children[path[0]], path[1..], allowed)
    else if m.permission == "" then !EqualFold(m.component, "layout")
    else "*" in allowed || m.permission in allowed
  }

  lemma {:induction false} OpensIsLeads(m: Menu, path: seq<nat>, allowed: set<string>)
    ensures OpensAlong(m, path, allowed) <==> LeadsToAllowed(m, path, allowed)
    decreases |path|
  {
    if path != [] && path[0] < |m.children| {
      OpensIsLeads(m.children[path[0]], path[1..], allowed);
    }
  }

  ghost predicate Opens(m: Menu, allowed: set<string>) {
    exists path: seq<nat> :: OpensAlong(m, path, allowed)
  }

  lemma KeptIffOpens(m: Menu, allowed: set<string>)
    ensures Kept(m, allowed) <==> Opens(m, allowed)
  {
    if Kept(m, allowed) {
      var path := KeptHasPath(m, allowed);
      OpensIsLeads(m, path, allowed);
    }
    if Opens(m, allowed) {
      var path: seq<nat> :| OpensAlong(m, path, allowed);
      OpensIsLeads(m, path, allowed);
      PathMeansKept(m, path, allowed);
    }
  }

  /** The node stands for this menu: all its fields, and those children the user may see. */
  ghost predicate StandsFor(r: Menu, m: Menu, allowed: set<string>) {
    SameFields(r, m) && r.children == Filtered(m.children, allowed)
  }

  lemma PrunedExactly(r: Menu, m: Menu, allowed: set<string>)
    ensures r == Pruned(m, allowed) <==> StandsFor(r, m, allowed)
  {
    if r == Pruned(m, allowed) {
      SameBareSameFields(r, m);
    }
    if StandsFor(r, m, allowed) {
      var p := Pruned(m, allowed);
      SameBareSameFields(p, m);
      assert r.children == p.children;
    }
  }

  /** The nodes a user gets to see are, field by field, the menus that are visible together with
      all their ancestors and open to the user themselves or through one below. */
  lemma SeenExactly(ms: seq<Menu>, allowed: set<string>, r: Menu)
    ensures r in Nodes(Filtered(ms, allowed)) <==>
      exists m | m in VisibleNodes(ms) && Opens(m, allowed) :: StandsFor(r, m, allowed)
  {
    FilteredExactly(ms, allowed, r);
    if r in Nodes(Filtered(ms, allowed)) {
      var m :| m in VisibleNodes(ms) && Kept(m, allowed) && r == Pruned(m, allowed);
      KeptIffOpens(m, allowed);
      PrunedExactly(r, m, allowed);
    }
    if m :| m in VisibleNodes(ms) && Opens(m, allowed) && StandsFor(r, m, allowed) {
      KeptIffOpens(m, allowed);
      PrunedExactly(r, m, allowed);
    }
  }
}
