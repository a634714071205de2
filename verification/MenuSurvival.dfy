/**
 Which menus `buildMenuTree` returns: exactly the `Shown` ones, each once, for
 every list of menus, whatever its parents and IDs.
 */
module MenuSurvival {
  import opened Domain
  import opened MenuTree
  import opened Sorting

  /** The menus of a forest, without their children, with multiplicity. */
  ghost function Bag(ms: seq<Menu>): multiset<Menu> {
    if ms == [] then multiset{}
    else BagOf(ms[0]) + Bag(ms[1..])
  }

  ghost function BagOf(m: Menu): multiset<Menu> {
    multiset{Bare(m)} + Bag(m.children)
  }

  lemma {:induction false} BagConcat(a: seq<Menu>, b: seq<Menu>)
    ensures Bag(a + b) == Bag(a) + Bag(b)
  {
    if a == [] {
      assert a + b == b;
    } else {
      var s := a + b;
      calc {
        Bag(s);
      ==
        BagOf(s[0]) + Bag(s[1..]);
      == { assert s[0] == a[0] && s[1..] == a[1..] + b; }
        BagOf(a[0]) + Bag(a[1..] + b);
      == { BagConcat(a[1..], b); }
        BagOf(a[0]) + (Bag(a[1..]) + Bag(b));
      }
    }
  }

  lemma BagSnoc(a: seq<Menu>, m: Menu)
    ensures Bag(a + [m]) == Bag(a) + BagOf(m)
  {
    BagConcat(a, [m]);
    assert Bag([m][1..]) == multiset{};
  }

  lemma AddChildBag(m: Menu, child: Menu)
    ensures BagOf(m.(children := m.children + [child])) == BagOf(m) + BagOf(child)
  {
    BagSnoc(m.children, child);
  }

  lemma {:induction false} InsertBag(m: Menu, ms: seq<Menu>)
    ensures Bag(Insert(m, ms, BEFORE)) == BagOf(m) + Bag(ms)
  {
    if ms == [] {
      BagSnoc([], m);
      assert [] + [m] == [m];
    } else if Before(ms[0], m) {
      InsertBag(m, ms[1..]);
      assert Insert(m, ms, BEFORE)[1..] == Insert(m, ms[1..], BEFORE);
    } else {
      assert Insert(m, ms, BEFORE)[1..] == ms;
    }
  }

  lemma {:induction false} SortForestBag(ms: seq<Menu>)
    ensures Bag(SortForest(ms)) == Bag(ms)
  {
    if ms != [] {
      SortForestBag(ms[1..]);
      SortForestBag(ms[0].children);
      InsertBag(SortNode(ms[0]), SortForest(ms[1..]));
    }
  }

  // ------------------------------------------------ where a menu is at time t

  /** Whether a change to `nodes[i]` after `t` steps can still reach the result. */
  predicate Live(items: seq<Menu>, i: nat, t: nat)
    requires i < |items|
  {
    IsRoot(items, i) || t <= i
  }

  /** The live node whose tree holds menu `k` after `t` steps, or -1 when none does. */
  function Home(items: seq<Menu>, k: nat, t: nat): (h: int)
    requires k < |items| && t <= |items|
    ensures -1 <= h < |items|
    ensures h != -1 ==> Live(items, h, t)
    decreases t
  {
    if t == 0 then k
    else
      var h := Home(items, k, t - 1);
      var p := ParentIndex(items, t - 1);
      if h != t - 1 || p == -1 then h else if Live(items, p, t) then p else -1
  }

  /** The menus among the first `m` whose home at time `t` is `h`. */
  ghost function HomeBag(items: seq<Menu>, h: nat, t: nat, m: nat): multiset<Menu>
    requires t <= |items| && m <= |items|
  {
    if m == 0 then multiset{}
    else
      HomeBag(items, h, t, m - 1) +
      (if Home(items, m - 1, t) == h then multiset{Bare(items[m - 1])} else multiset{})
  }

  lemma {:induction false} HomeBagStart(items: seq<Menu>, h: nat, m: nat)
    requires h < |items| && m <= |items|
    ensures HomeBag(items, h, 0, m) == if h < m then multiset{Bare(items[h])} else multiset{}
  {
    if m > 0 {
      HomeBagStart(items, h, m - 1);
    }
  }

  /** Appending menu `t` moves everything it holds to its parent. */
  lemma {:induction false} HomeBagStep(items: seq<Menu>, h: nat, t: nat, m: nat)
    requires h < |items| && t < |items| && m <= |items| && Live(items, h, t + 1)
    ensures HomeBag(items, h, t + 1, m) ==
      HomeBag(items, h, t, m) + (if ParentIndex(items, t) == h then HomeBag(items, t, t, m) else multiset{})
  {
    if m > 0 {
      HomeBagStep(items, h, t, m - 1);
      var was, now := Home(items, m - 1, t), Home(items, m - 1, t + 1);
      assert now == h <==> was == h || (was == t && ParentIndex(items, t) == h);
      assert was == h == t ==> ParentIndex(items, t) == -1;
    }
  }

  lemma NodeGrows(items: seq<Menu>, i: nat, t: nat)
    requires i < |items| && t < |items|
    ensures BagOf(NodeAt(items, i, t + 1)) ==
      BagOf(NodeAt(items, i, t)) +
      (if ParentIndex(items, t) == i then BagOf(NodeAt(items, t, t)) else multiset{})
  {
    AppendStep(items, t);
    if ParentIndex(items, t) == i {
      AddChildBag(NodeAt(items, i, t), NodeAt(items, t, t));
    }
  }

  /** The tree of `nodes[i]` is made of exactly the menus whose home it is. */
  ghost predicate Holds(items: seq<Menu>, i: nat, t: nat)
    requires i < |items| && t <= |items|
  {
    BagOf(NodeAt(items, i, t)) == HomeBag(items, i, t, |items|)
  }

  lemma NewNodeHolds(items: seq<Menu>, i: nat)
    requires i < |items|
    ensures Holds(items, i, 0)
  {
    HomeBagStart(items, i, |items|);
    assert Bag(Bare(items[i]).children) == multiset{};
  }

  lemma LiveNodeStep(items: seq<Menu>, i: nat, t: nat)
    requires i < |items| && t < |items| && Live(items, i, t + 1)
    requires Holds(items, i, t) && (ParentIndex(items, t) == i ==> Holds(items, t, t))
    ensures Holds(items, i, t + 1)
  {
    HomeBagStep(items, i, t, |items|);
    NodeGrows(items, i, t);
  }

  /** A live node holds exactly the menus whose home it is. */
  lemma {:induction false} LiveNodeHolds(items: seq<Menu>, i: nat, t: nat)
    requires i < |items| && t <= |items| && Live(items, i, t)
    ensures Holds(items, i, t)
    decreases t
  {
    if t == 0 {
      NewNodeHolds(items, i);
    } else {
      var s := t - 1;
      LiveNodeHolds(items, i, s);
      if ParentIndex(items, s) == i {
        LiveNodeHolds(items, s, s);
      }
      LiveNodeStep(items, i, s);
    }
  }

  // ------------------------------------------------- who is home at the end

  lemma {:induction false} HomeBeforeOwnStep(items: seq<Menu>, k: nat, t: nat)
    requires t <= k < |items|
    ensures Home(items, k, t) == k
  {
    if t > 0 {
      HomeBeforeOwnStep(items, k, t - 1);
    }
  }

  lemma {:induction false} RootStaysHome(items: seq<Menu>, k: nat, t: nat)
    requires t <= |items| && k < |items| && IsRoot(items, k)
    ensures Home(items, k, t) == k
  {
    if t > 0 {
      RootStaysHome(items, k, t - 1);
    }
  }

  /** A menu whose copy reached a live parent shares the parent's fate. */
  lemma {:induction false} SharesParentsHome(items: seq<Menu>, k: nat, t: nat)
    requires k < t <= |items|
    requires var p := ParentIndex(items, k); p != -1 && Live(items, p, k + 1)
    ensures Home(items, k, t) == Home(items, ParentIndex(items, k), t)
  {
    var p := ParentIndex(items, k);
    if t == k + 1 {
      HomeBeforeOwnStep(items, k, k);
      if IsRoot(items, p) {
        RootStaysHome(items, p, t);
      } else {
        HomeBeforeOwnStep(items, p, t);
      }
    } else {
      SharesParentsHome(items, k, t - 1);
    }
  }

  lemma {:induction false} GoneStaysGone(items: seq<Menu>, k: nat, t: nat)
    requires k < t <= |items|
    requires var p := ParentIndex(items, k); p != -1 && !Live(items, p, k + 1)
    ensures Home(items, k, t) == -1
  {
    if t == k + 1 {
      HomeBeforeOwnStep(items, k, k);
    } else {
      GoneStaysGone(items, k, t - 1);
    }
  }

  lemma {:induction false} ShownIffHome(items: seq<Menu>, k: nat)
    requires k < |items|
    ensures Shown(items, k) <==> Home(items, k, |items|) != -1
    decreases |items| - k
  {
    var p := ParentIndex(items, k);
    if p == -1 {
      RootStaysHome(items, k, |items|);
    } else if IsRoot(items, p) {
      SharesParentsHome(items, k, |items|);
      RootStaysHome(items, p, |items|);
    } else if k < p {
      SharesParentsHome(items, k, |items|);
      ShownIffHome(items, p);
    } else {
      GoneStaysGone(items, k, |items|);
    }
  }

  // ------------------------------------------------------------ the theorem

  /** The shown menus among the first `m`. */
  ghost function ShownBag(items: seq<Menu>, m: nat): multiset<Menu>
    requires m <= |items|
  {
    if m == 0 then multiset{}
    else ShownBag(items, m - 1) + (if Shown(items, m - 1) then multiset{Bare(items[m - 1])} else multiset{})
  }

  /** The menus among the first `m` whose final home is before `b`. */
  ghost function HousedBag(items: seq<Menu>, b: nat, m: nat): multiset<Menu>
    requires m <= |items|
  {
    if m == 0 then multiset{}
    else
      HousedBag(items, b, m - 1) +
      (if 0 <= Home(items, m - 1, |items|) < b then multiset{Bare(items[m - 1])} else multiset{})
  }

  lemma {:induction false} HousedBagNone(items: seq<Menu>, m: nat)
    requires m <= |items|
    ensures HousedBag(items, 0, m) == multiset{}
  {
    if m > 0 {
      HousedBagNone(items, m - 1);
    }
  }

  lemma {:induction false} HousedBagStep(items: seq<Menu>, b: nat, m: nat)
    requires m <= |items|
    ensures HousedBag(items, b + 1, m) == HousedBag(items, b, m) + HomeBag(items, b, |items|, m)
  {
    if m > 0 {
      HousedBagStep(items, b, m - 1);
    }
  }

  lemma {:induction false} HousedBagAll(items: seq<Menu>, m: nat)
    requires m <= |items|
    ensures HousedBag(items, |items|, m) == ShownBag(items, m)
  {
    if m > 0 {
      ShownIffHome(items, m - 1);
      assert Shown(items, m - 1) <==> 0 <= Home(items, m - 1, |items|) < |items|;
      HousedBagAll(items, m - 1);
    }
  }

  lemma {:induction false} NobodyHome(items: seq<Menu>, h: nat, m: nat)
    requires h < |items| && m <= |items| && !IsRoot(items, h)
    ensures HomeBag(items, h, |items|, m) == multiset{}
  {
    if m > 0 {
      NobodyHome(items, h, m - 1);
    }
  }

  lemma {:induction false} RootsHold(items: seq<Menu>, b: nat)
    requires b <= |items|
    ensures Bag(Roots(items, b)) == HousedBag(items, b, |items|)
  {
    if b == 0 {
      HousedBagNone(items, |items|);
    } else {
      RootsHold(items, b - 1);
      HousedBagStep(items, b - 1, |items|);
      if IsRoot(items, b - 1) {
        LiveNodeHolds(items, b - 1, |items|);
        BagSnoc(Roots(items, b - 1), NodeAt(items, b - 1, |items|));
      } else {
        NobodyHome(items, b - 1, |items|);
        assert Roots(items, b) == Roots(items, b - 1);
      }
    }
  }

  /** The forest holds exactly the shown menus, each as often as the list does. */
  lemma ForestHoldsExactlyTheShown(items: seq<Menu>)
    ensures Bag(Forest(items)) == ShownBag(items, |items|)
  {
    RootsHold(items, |items|);
    HousedBagAll(items, |items|);
    SortForestBag(Roots(items, |items|));
  }

  // ---------------------------------------------------------- consequences

  /** Every menu of the list, bare, with multiplicity. */
  ghost function ListBag(items: seq<Menu>, m: nat): multiset<Menu>
    requires m <= |items|
  {
    if m == 0 then multiset{} else ListBag(items, m - 1) + multiset{Bare(items[m - 1])}
  }

  lemma {:induction false} ListBagSize(items: seq<Menu>, m: nat)
    requires m <= |items|
    ensures |ListBag(items, m)| == m
  {
    if m > 0 {
      ListBagSize(items, m - 1);
    }
  }

  lemma {:induction false} ShownBagSize(items: seq<Menu>, m: nat)
    requires m <= |items|
    ensures |ShownBag(items, m)| <= m
    ensures |ShownBag(items, m)| == m ==> forall i | 0 <= i < m :: Shown(items, i)
  {
    if m > 0 {
      ShownBagSize(items, m - 1);
    }
  }

  lemma {:induction false} ShownBagFull(items: seq<Menu>, m: nat)
    requires m <= |items| && AllShown(items)
    ensures ShownBag(items, m) == ListBag(items, m)
  {
    if m > 0 {
      ShownBagFull(items, m - 1);
    }
  }

  /** The tree builder loses nothing exactly when every menu is shown. */
  lemma NothingLostIffAllShown(items: seq<Menu>)
    ensures Bag(Forest(items)) == ListBag(items, |items|) <==> AllShown(items)
  {
    ForestHoldsExactlyTheShown(items);
    if AllShown(items) {
      ShownBagFull(items, |items|);
    } else {
      ListBagSize(items, |items|);
      ShownBagSize(items, |items|);
    }
  }

  ghost predicate TwoLevels(items: seq<Menu>) {
    forall i | 0 <= i < |items| ::
      var p := ParentIndex(items, i);
      p == -1 || IsRoot(items, p)
  }

  ghost predicate ChildrenBeforeParents(items: seq<Menu>) {
    forall i | 0 <= i < |items| ::
      var p := ParentIndex(items, i);
      p == -1 || i < p
  }

  lemma TwoLevelsLoseNothing(items: seq<Menu>)
    requires TwoLevels(items)
    ensures Bag(Forest(items)) == ListBag(items, |items|)
  {
    NothingLostIffAllShown(items);
  }

  lemma {:induction false} ShownFromTheBack(items: seq<Menu>, i: nat)
    requires i < |items| && ChildrenBeforeParents(items)
    ensures Shown(items, i)
    decreases |items| - i
  {
    var p := ParentIndex(items, i);
    if p != -1 {
      ShownFromTheBack(items, p);
    }
  }

  lemma ChildrenBeforeParentsLoseNothing(items: seq<Menu>)
    requires ChildrenBeforeParents(items)
    ensures Bag(Forest(items)) == ListBag(items, |items|)
  {
    forall i | 0 <= i < |items| ensures Shown(items, i) {
      ShownFromTheBack(items, i);
    }
    NothingLostIffAllShown(items);
  }
}
