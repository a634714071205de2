/**
 Exactly which menus the memory store lists. It sorts by the sort value alone, so
 menus with equal sort values reach the builder in any order. A menu is safe from
 every order, or at the mercy of some, by what the sort values on its way up are.
 */
module MenuOrders {
  import opened Domain
  import opened MenuListing
  import opened MenuStore
  import opened MenuTree
  import opened Paging
  import opened Sorting
  import opened Tables

  // ------------------------------------------------- an order with ties broken

  ghost predicate Lower(a: Menu, b: Menu, tie: Menu -> int) {
    a.sort < b.sort || (a.sort == b.sort && tie(a) < tie(b))
  }

  ghost function LowerBy(tie: Menu -> int): (Menu, Menu) -> bool {
    (a: Menu, b: Menu) => Lower(a, b, tie)
  }

  lemma AllSelected(t: Table<Menu>)
    requires Numbered(t, MENU_ID)
    ensures Gathered(t, MENU_ID, ANY_MENU, {}, Select(t.rows, ANY_MENU, t.next))
  {
    var found := Select(t.rows, ANY_MENU, t.next);
    SelectAscending(t, MENU_ID, ANY_MENU, t.next);
    forall x | x in found ensures MENU_ID(x) in t.rows && t.rows[MENU_ID(x)] == x {
      var id := SelectFrom(t.rows, ANY_MENU, t.next, x);
    }
    forall id | id in t.rows ensures t.rows[id] in found {
      SelectHas(t.rows, ANY_MENU, t.next, id);
    }
    forall i, j | 0 <= i < j < |found| ensures MENU_ID(found[i]) != MENU_ID(found[j]) {
      assert ByID(MENU_ID)(found[i], found[j]);
    }
  }

  /** Ties may be broken in any way: the store may hand out its menus in that order. */
  lemma ArrangedIsPossible(t: Table<Menu>, tie: Menu -> int) returns (items: seq<Menu>)
    requires IsForest(t)
    ensures Lists(items, t.rows) && InSortOrder(items) && Ordered(items, LowerBy(tie))
    ensures IsListing(Forest(items), t.rows)
  {
    var found := Select(t.rows, ANY_MENU, t.next);
    items := Sort(found, LowerBy(tie));
    AllSelected(t);
    SortedLists(t, found, LowerBy(tie));
    SortOrdered(found, LowerBy(tie));
    forall i, j | 0 <= i < j < |items| ensures !SORTS_LOWER(items[j], items[i]) {
      assert !LowerBy(tie)(items[j], items[i]);
    }
  }

  // --------------------------------------------------------- parents against children

  /** How many parents up the menu is from 0. */
  ghost function Height(rows: Rows, id: nat): nat {
    if exists n: nat :: Climbs(rows, id, 0, n) then
      var n: nat :| Climbs(rows, id, 0, n);
      n
    else 0
  }

  lemma HeightIs(t: Table<Menu>, id: nat, n: nat)
    requires IsForest(t) && Climbs(t.rows, id, 0, n)
    ensures Height(t.rows, id) == n
  {
    ClimbsUnique(t.rows, id, n, Height(t.rows, id));
  }

  /** Parents before their children where sort values are equal: the order that loses most. */
  ghost function ParentsFirst(rows: Rows): Menu -> int {
    (m: Menu) => Height(rows, m.id)
  }

  /** Children before their parents: the order that loses least. */
  ghost function ChildrenFirst(rows: Rows): Menu -> int {
    (m: Menu) => var height: int := Height(rows, m.id); -height
  }

  /** When parents come first, a step up in the list is a step up in the sort value. */
  lemma {:induction false} RisesStrictly(t: Table<Menu>, id: nat, n: nat)
    requires IsForest(t) && id in t.rows && Climbs(t.rows, id, 0, n)
    requires Rises(t.rows, (a: Menu, b: Menu) => !Lower(b, a, ParentsFirst(t.rows)), id, n)
    ensures Rises(t.rows, SORTS_LOWER, id, n)
    decreases n
  {
    var p := t.rows[id].parentID;
    if p != 0 && t.rows[p].parentID != 0 {
      assert MENU_ID(t.rows[id]) == id && MENU_ID(t.rows[p]) == p;
      HeightIs(t, id, n);
      HeightIs(t, p, n - 1);
      RisesStrictly(t, p, n - 1);
    }
  }

  /** When children come first, a step that does not go down is a step up in the list. */
  lemma {:induction false} RisesInOrder(t: Table<Menu>, id: nat, n: nat)
    requires IsForest(t) && id in t.rows && Climbs(t.rows, id, 0, n)
    requires Rises(t.rows, SORTS_NO_HIGHER, id, n)
    ensures Rises(t.rows, (a: Menu, b: Menu) => Lower(a, b, ChildrenFirst(t.rows)), id, n)
    decreases n
  {
    var p := t.rows[id].parentID;
    if p != 0 && t.rows[p].parentID != 0 {
      assert MENU_ID(t.rows[id]) == id && MENU_ID(t.rows[p]) == p;
      HeightIs(t, id, n);
      HeightIs(t, p, n - 1);
      RisesInOrder(t, p, n - 1);
    }
  }

  /** With parents first, only menus that rise strictly are listed. */
  lemma WorstListing(t: Table<Menu>, id: nat, n: nat) returns (tree: seq<Menu>)
    requires IsForest(t) && id in t.rows && Climbs(t.rows, id, 0, n)
    ensures IsListing(tree, t.rows)
    ensures TreeContainsID(tree, id) ==> Rises(t.rows, SORTS_LOWER, id, n)
  {
    var items := ArrangedIsPossible(t, ParentsFirst(t.rows));
    tree := Forest(items);
    ListedIffShown(items, t.rows, id);
    if TreeContainsID(tree, id) {
      var less := (a: Menu, b: Menu) => !Lower(b, a, ParentsFirst(t.rows));
      ShownIsRising(items, t.rows, less, IndexOf(items, id), n);
      RisesStrictly(t, id, n);
    }
  }

  /** With children first, every menu that nowhere sinks is listed. */
  lemma BestListing(t: Table<Menu>, id: nat, n: nat) returns (tree: seq<Menu>)
    requires IsForest(t) && id in t.rows && Climbs(t.rows, id, 0, n)
    ensures IsListing(tree, t.rows)
    ensures Rises(t.rows, SORTS_NO_HIGHER, id, n) ==> TreeContainsID(tree, id)
  {
    var items := ArrangedIsPossible(t, ChildrenFirst(t.rows));
    tree := Forest(items);
    ListedIffShown(items, t.rows, id);
    if Rises(t.rows, SORTS_NO_HIGHER, id, n) {
      var less := (a: Menu, b: Menu) => Lower(a, b, ChildrenFirst(t.rows));
      RisesInOrder(t, id, n);
      RisingIsShown(items, t.rows, less, IndexOf(items, id), n);
    }
  }

  // ------------------------------------------------------------------ the theorems

  /** A menu is in every listing exactly when sort values strictly increase going up from
      it to the level below the root. */
  lemma AlwaysListed(t: Table<Menu>, id: nat, n: nat)
    requires IsForest(t) && id in t.rows && Climbs(t.rows, id, 0, n)
    ensures (forall tree | IsListing(tree, t.rows) :: TreeContainsID(tree, id)) <==>
      Rises(t.rows, SORTS_LOWER, id, n)
  {
    var worst := WorstListing(t, id, n);
    if Rises(t.rows, SORTS_LOWER, id, n) {
      forall tree | IsListing(tree, t.rows) ensures TreeContainsID(tree, id) {
        var items :| Lists(items, t.rows) && InSortOrder(items) && tree == Forest(items);
        MemoryListing(items, t, id, n);
      }
    }
  }

  /** A menu is in some listing exactly when sort values nowhere decrease on that way. */
  lemma SometimesListed(t: Table<Menu>, id: nat, n: nat)
    requires IsForest(t) && id in t.rows && Climbs(t.rows, id, 0, n)
    ensures (exists tree :: IsListing(tree, t.rows) && TreeContainsID(tree, id)) <==>
      Rises(t.rows, SORTS_NO_HIGHER, id, n)
  {
    var best := BestListing(t, id, n);
    if exists tree :: IsListing(tree, t.rows) && TreeContainsID(tree, id) {
      var tree :| IsListing(tree, t.rows) && TreeContainsID(tree, id);
      var items :| Lists(items, t.rows) && InSortOrder(items) && tree == Forest(items);
      MemoryListing(items, t, id, n);
    }
  }

  /** Whether a menu is listed depends on the order of the map exactly when the way up
      never decreases but somewhere stays level. */
  lemma UndecidedExactly(t: Table<Menu>, id: nat, n: nat)
    requires IsForest(t) && id in t.rows && Climbs(t.rows, id, 0, n)
    ensures (exists with, without :: IsListing(with, t.rows) && TreeContainsID(with, id) &&
                                     IsListing(without, t.rows) && !TreeContainsID(without, id)) <==>
      Rises(t.rows, SORTS_NO_HIGHER, id, n) && !Rises(t.rows, SORTS_LOWER, id, n)
  {
    AlwaysListed(t, id, n);
    SometimesListed(t, id, n);
  }

  ghost predicate ListsEverything(tree: seq<Menu>, rows: Rows) {
    forall id | id in rows :: TreeContainsID(tree, id)
  }

  /** `ListMenus` returns every stored menu, whatever the order of the map, exactly when every
      menu rises strictly. */
  lemma NothingEverLost(t: Table<Menu>)
    requires IsForest(t)
    ensures (forall tree | IsListing(tree, t.rows) :: ListsEverything(tree, t.rows)) <==>
      forall id | id in t.rows :: Rises(t.rows, SORTS_LOWER, id, Height(t.rows, id))
  {
    forall id | id in t.rows
      ensures (forall tree | IsListing(tree, t.rows) :: TreeContainsID(tree, id)) <==>
        Rises(t.rows, SORTS_LOWER, id, Height(t.rows, id))
    {
      var n: nat :| Climbs(t.rows, id, 0, n);
      HeightIs(t, id, n);
      AlwaysListed(t, id, n);
    }
  }
}
