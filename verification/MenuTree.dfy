/**
 The tree builder `buildMenuTree`, which both stores share: a flat list of menus
 goes in, a sorted forest comes out.

 The builder appends a copy of each menu to its parent's `Children`. The copy
 holds the children the menu had when it was copied, so children that arrive
 later are lost. `Shown` says which menus survive.

 A Go slice header that is copied keeps its length, and of the headers that
 share a backing array only one can be reached from the returned roots, so
 `children` as a sequence value shows exactly what the returned forest shows.
 */
module MenuTree {
  import opened Domain
  import opened Sorting

  // ---------------------------------------------------------------- the list

  /** A menu without its children. */
  function Bare(m: Menu): Menu { m.(children := []) }

  /** `byID`: the last menu of the list with this ID, or -1. */
  function IndexOf(items: seq<Menu>, id: nat): (r: int)
    ensures -1 <= r < |items|
    ensures r == -1 <==> forall k | 0 <= k < |items| :: items[k].id != id
    ensures r != -1 ==> items[r].id == id
  {
    if items == [] then -1
    else if items[|items| - 1].id == id then |items| - 1
    else IndexOf(items[..|items| - 1], id)
  }

  /** Where the parent of menu `i` stands, or -1 when `i` is a root. */
  function ParentIndex(items: seq<Menu>, i: nat): (r: int)
    requires i < |items|
    ensures -1 <= r < |items|
  {
    if items[i].parentID == 0 then -1 else IndexOf(items, items[i].parentID)
  }

  predicate IsRoot(items: seq<Menu>, i: nat)
    requires i < |items|
  {
    ParentIndex(items, i) == -1
  }

  /** Menu `i` of the list reaches the returned forest: going up from it to its
      ancestor directly below the root, list positions strictly increase. */
  predicate Shown(items: seq<Menu>, i: nat)
    requires i < |items|
    decreases |items| - i
  {
    var p := ParentIndex(items, i);
    p == -1 || IsRoot(items, p) || (i < p && Shown(items, p))
  }

  ghost predicate AllShown(items: seq<Menu>) {
    forall i | 0 <= i < |items| :: Shown(items, i)
  }

  ghost predicate DistinctIDs(items: seq<Menu>) {
    forall i, j | 0 <= i < j < |items| :: items[i].id != items[j].id
  }

  // ------------------------------------------------------------- the builder

  /** What `nodes[i]` holds when the first `t` menus have been appended to their parents. */
  function NodeAt(items: seq<Menu>, i: nat, t: nat): (m: Menu)
    requires i < |items| && t <= |items|
    ensures Bare(m) == Bare(items[i])
    decreases t
  {
    if t == 0 then Bare(items[i])
    else
      var before := NodeAt(items, i, t - 1);
      if ParentIndex(items, t - 1) == i
      then before.(children := before.children + [NodeAt(items, t - 1, t - 1)])
      else before
  }

  /** The roots among the first `k` menus, as they stand after all appends. */
  function Roots(items: seq<Menu>, k: nat): seq<Menu>
    requires k <= |items|
  {
    if k == 0 then []
    else Roots(items, k - 1) + (if IsRoot(items, k - 1) then [NodeAt(items, k - 1, |items|)] else [])
  }

  predicate Before(a: Menu, b: Menu) {
    a.sort < b.sort || (a.sort == b.sort && a.id < b.id)
  }

  /** The comparison of `sortMenus`. */
  const BEFORE := (a: Menu, b: Menu) => Before(a, b)

  /** A forest with every list of siblings sorted. */
  function SortForest(ms: seq<Menu>): seq<Menu> {
    if ms == [] then []
    else Insert(SortNode(ms[0]), SortForest(ms[1..]), BEFORE)
  }

  function SortNode(m: Menu): (r: Menu)
    ensures Bare(r) == Bare(m) && r.sort == m.sort && r.id == m.id
  {
    m.(children := SortForest(m.children))
  }

  function Forest(items: seq<Menu>): seq<Menu> {
    SortForest(Roots(items, |items|))
  }

  /** What `byID` holds after the loop over the first `k` menus. */
  ghost predicate Indexes(byID: map<nat, nat>, items: seq<Menu>, k: nat)
    requires k <= |items|
  {
    && (forall id :: id in byID <==> IndexOf(items[..k], id) != -1)
    && (forall id | id in byID :: byID[id] == IndexOf(items[..k], id))
  }

  lemma IndexesNext(byID: map<nat, nat>, items: seq<Menu>, k: nat)
    requires k < |items| && Indexes(byID, items, k)
    ensures Indexes(byID[items[k].id := k], items, k + 1)
  {
    assert items[..k + 1][..k] == items[..k];
  }

  lemma AppendStep(items: seq<Menu>, i: nat)
    requires i < |items|
    ensures forall k | 0 <= k < |items| && k != ParentIndex(items, i) ::
      NodeAt(items, k, i + 1) == NodeAt(items, k, i)
    ensures var p := ParentIndex(items, i);
      p == -1 ||
      NodeAt(items, p, i + 1) ==
      NodeAt(items, p, i).(children := NodeAt(items, p, i).children + [NodeAt(items, i, i)])
  {
  }

  method BuildMenuTree(items: seq<Menu>) returns (roots: seq<Menu>)
    ensures roots == Forest(items)
  {
    var nodes, byID := IndexNodes(items);
    AppendAll(items, nodes, byID);
    roots := CollectRoots(items, nodes, byID);
    roots := SortMenus(roots);
  }

  /** The loop of `buildMenuTree` that collects the roots. */
  method CollectRoots(items: seq<Menu>, nodes: array<Menu>, byID: map<nat, nat>) returns (roots: seq<Menu>)
    requires nodes.Length == |items| && Indexes(byID, items, |items|)
    requires forall k | 0 <= k < |items| :: nodes[k] == NodeAt(items, k, |items|)
    ensures roots == Roots(items, |items|)
  {
    assert items[..|items|] == items;
    roots := [];
    for i := 0 to nodes.Length
      invariant roots == Roots(items, i)
    {
      assert Bare(nodes[i]).parentID == Bare(items[i]).parentID;
      if nodes[i].parentID == 0 || nodes[i].parentID !in byID {
        roots := roots + [nodes[i]];
      }
    }
  }

  /** The loop of `buildMenuTree` that clears the children and fills `byID`. */
  method IndexNodes(items: seq<Menu>) returns (nodes: array<Menu>, byID: map<nat, nat>)
    ensures fresh(nodes) && nodes.Length == |items| && Indexes(byID, items, |items|)
    ensures forall k | 0 <= k < |items| :: nodes[k] == Bare(items[k])
  {
    nodes := new Menu[|items|](i requires 0 <= i < |items| => items[i]);
    byID := map[];
    for i := 0 to nodes.Length
      invariant forall k | 0 <= k < i :: nodes[k] == Bare(items[k])
      invariant forall k | i <= k < |items| :: nodes[k] == items[k]
      invariant Indexes(byID, items, i)
    {
      nodes[i] := Bare(nodes[i]);
      IndexesNext(byID, items, i);
      byID := byID[nodes[i].id := i];
    }
  }

  /** The loop of `buildMenuTree` that appends every menu to its parent. */
  method AppendAll(items: seq<Menu>, nodes: array<Menu>, byID: map<nat, nat>)
    requires nodes.Length == |items| && Indexes(byID, items, |items|)
    requires forall k | 0 <= k < |items| :: nodes[k] == Bare(items[k])
    modifies nodes
    ensures forall k | 0 <= k < |items| :: nodes[k] == NodeAt(items, k, |items|)
  {
    assert items[..|items|] == items;
    for i := 0 to nodes.Length
      invariant forall k | 0 <= k < |items| :: nodes[k] == NodeAt(items, k, i)
    {
      var menu := nodes[i];
      AppendStep(items, i);
      if menu.parentID == 0 {
        continue;
      }
      if menu.parentID in byID {
        var p := byID[menu.parentID];
        nodes[p] := nodes[p].(children := nodes[p].children + [menu]);
      }
    }
  }

  /** `SortForest` of every child list, the siblings left in place. */
  function SortChildren(ms: seq<Menu>): (r: seq<Menu>)
    ensures |r| == |ms|
  {
    if ms == [] then []
    else [SortNode(ms[0])] + SortChildren(ms[1..])
  }

  lemma {:induction false} SortChildrenAt(ms: seq<Menu>, k: nat)
    requires k < |ms|
    ensures SortChildren(ms)[k] == SortNode(ms[k])
  {
    if k > 0 {
      SortChildrenAt(ms[1..], k - 1);
    }
  }

  lemma {:induction false} InsertSortsChildren(m: Menu, ms: seq<Menu>)
    ensures Insert(SortNode(m), SortChildren(ms), BEFORE) == SortChildren(Insert(m, ms, BEFORE))
  {
    if ms != [] {
      assert SortChildren(ms)[1..] == SortChildren(ms[1..]);
      if Before(ms[0], m) {
        InsertSortsChildren(m, ms[1..]);
        assert Insert(m, ms, BEFORE)[1..] == Insert(m, ms[1..], BEFORE);
      } else {
        assert Insert(m, ms, BEFORE)[1..] == ms;
      }
    }
  }

  /** Sorting the siblings first and the children after it, as `sortMenus` does,
      gives the sorted forest. */
  lemma {:induction false} SortThenChildren(ms: seq<Menu>)
    ensures SortChildren(Sort(ms, BEFORE)) == SortForest(ms)
  {
    if ms != [] {
      SortThenChildren(ms[1..]);
      InsertSortsChildren(ms[0], Sort(ms[1..], BEFORE));
    }
  }

  ghost function Height(ms: seq<Menu>): (h: nat)
    ensures forall m | m in ms :: Height(m.children) < h
  {
    if ms == [] then 0
    else
      var a, b := Height(ms[0].children) + 1, Height(ms[1..]);
      assert ms == [ms[0]] + ms[1..];
      if a < b then b else a
  }

  lemma {:induction false} SortForestOrdered(ms: seq<Menu>)
    ensures Ordered(SortForest(ms), BEFORE)
  {
    if ms != [] {
      SortForestOrdered(ms[1..]);
      InsertOrdered(SortNode(ms[0]), SortForest(ms[1..]), BEFORE);
    }
  }

  /** Siblings stand by sort value, and by ID where sort values are equal. */
  lemma SortedBySortAndID(ms: seq<Menu>)
    requires Ordered(ms, BEFORE)
    ensures forall i, j | 0 <= i < j < |ms| ::
      ms[i].sort < ms[j].sort || (ms[i].sort == ms[j].sort && ms[i].id <= ms[j].id)
  {
    forall i, j | 0 <= i < j < |ms|
      ensures ms[i].sort < ms[j].sort || (ms[i].sort == ms[j].sort && ms[i].id <= ms[j].id)
    {
      assert !BEFORE(ms[j], ms[i]);
    }
  }

  method SortMenus(items: seq<Menu>) returns (out: seq<Menu>)
    ensures out == SortForest(items)
    ensures forall i, j | 0 <= i < j < |out| ::
      out[i].sort < out[j].sort || (out[i].sort == out[j].sort && out[i].id <= out[j].id)
    decreases Height(items), 1
  {
    var sorted := Sort(items, BEFORE);
    SortMembers(items, BEFORE);
    out := SortEach(sorted, Height(items));
    SortThenChildren(items);
    SortForestOrdered(items);
    SortedBySortAndID(out);
  }

  /** The loop of `sortMenus` over the sorted siblings. */
  method SortEach(sorted: seq<Menu>, ghost bound: nat) returns (out: seq<Menu>)
    requires forall m | m in sorted :: Height(m.children) < bound
    ensures out == SortChildren(sorted)
    decreases bound, 0
  {
    out := sorted;
    for i := 0 to |out|
      invariant |out| == |sorted|
      invariant forall k | 0 <= k < i :: out[k] == SortNode(sorted[k])
      invariant forall k | i <= k < |sorted| :: out[k] == sorted[k]
    {
      assert sorted[i] in sorted;
      var children := SortMenus(out[i].children);
      out := out[i := out[i].(children := children)];
    }
    forall k | 0 <= k < |out| ensures out[k] == SortChildren(sorted)[k] {
      SortChildrenAt(sorted, k);
    }
  }
}
