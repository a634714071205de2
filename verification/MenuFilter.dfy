/**
 `menusForPermissions`: the part of the menu forest a user gets to see.
 */
module MenuFilter {
  import opened Domain
  import opened Text
  import opened MenuTree
  import opened MenuForest
  import opened Permissions

  /** The menu is open to the user by itself; a layout without a permission is not. */
  predicate SelfAllowed(m: Menu, allowed: set<string>) {
    MenuAllowed(m.permission, allowed) && (m.permission != "" || !EqualFold(m.component, "layout"))
  }

  /** The menu is visible, and it or something below it is allowed. */
  predicate Kept(m: Menu, allowed: set<string>) {
    !m.hidden && (SelfAllowed(m, allowed) || exists c | c in m.children :: Kept(c, allowed))
  }

  function Pruned(m: Menu, allowed: set<string>): (r: Menu)
    ensures Bare(r) == Bare(m)
  {
    m.(children := Filtered(m.children, allowed))
  }

  function Filtered(ms: seq<Menu>, allowed: set<string>): seq<Menu> {
    if ms == [] then []
    else
      var rest := Filtered(ms[1..], allowed);
      if Kept(ms[0], allowed) then [Pruned(ms[0], allowed)] + rest else rest
  }

  lemma {:induction false} FilteredNonempty(ms: seq<Menu>, allowed: set<string>)
    ensures Filtered(ms, allowed) != [] <==> exists m | m in ms :: Kept(m, allowed)
  {
    if ms != [] {
      FilteredNonempty(ms[1..], allowed);
      assert ms[0] in ms;
      if exists m | m in ms :: Kept(m, allowed) {
        var m :| m in ms && Kept(m, allowed);
        assert m == ms[0] || m in ms[1..];
      }
    }
  }

  lemma {:induction false} FilteredSnoc(ms: seq<Menu>, m: Menu, allowed: set<string>)
    ensures Filtered(ms + [m], allowed) ==
      Filtered(ms, allowed) + (if Kept(m, allowed) then [Pruned(m, allowed)] else [])
  {
    if ms == [] {
      assert [] + [m] == [m];
    } else {
      FilteredSnoc(ms[1..], m, allowed);
      assert (ms + [m])[1..] == ms[1..] + [m];
    }
  }

  /** The recursive walk. */
  method Walk(items: seq<Menu>, allowed: set<string>) returns (out: seq<Menu>)
    ensures out == Filtered(items, allowed)
    decreases Height(items)
  {
    out := [];
    for i := 0 to |items|
      invariant out == Filtered(items[..i], allowed)
    {
      var item := items[i];
      assert items[..i + 1] == items[..i] + [item];
      FilteredSnoc(items[..i], item, allowed);
      if item.hidden {
        continue;
      }
      assert item in items;
      var children := Walk(item.children, allowed);
      FilteredNonempty(item.children, allowed);
      var layout := EqualFold(item.component, "layout");
      var selfAllowed := MenuAllowed(item.permission, allowed) && (item.permission != "" || !layout);
      if !selfAllowed && |children| == 0 {
        continue;
      }
      out := out + [item.(children := children)];
    }
    assert items[..|items|] == items;
  }

  method MenusForPermissions(items: seq<Menu>, permissions: seq<string>) returns (out: seq<Menu>)
    ensures out == Filtered(items, set p | p in permissions)
  {
    var allowed: set<string> := {};
    for i := 0 to |permissions|
      invariant allowed == set p | p in permissions[..i]
    {
      allowed := allowed + {permissions[i]};
    }
    assert permissions[..|permissions|] == permissions;
    out := Walk(items, allowed);
  }

  // ------------------------------------------------------------ what is kept

  /** Stepping down from the menu by child positions meets visible menus only and ends
      at one that is allowed by itself. */
  ghost predicate LeadsToAllowed(m: Menu, path: seq<nat>, allowed: set<string>)
    decreases |path|
  {
    !m.hidden &&
    if path == [] then SelfAllowed(m, allowed)
    else path[0] < |m.children| && LeadsToAllowed(m.children[path[0]], path[1..], allowed)
  }

  lemma {:induction false} KeptHasPath(m: Menu, allowed: set<string>) returns (path: seq<nat>)
    requires Kept(m, allowed)
    ensures LeadsToAllowed(m, path, allowed)
  {
    if SelfAllowed(m, allowed) {
      path := [];
    } else {
      var i :| 0 <= i < |m.children| && Kept(m.children[i], allowed);
      var rest := KeptHasPath(m.children[i], allowed);
      path := [i] + rest;
      assert path[1..] == rest;
    }
  }

  lemma {:induction false} PathMeansKept(m: Menu, path: seq<nat>, allowed: set<string>)
    requires LeadsToAllowed(m, path, allowed)
    ensures Kept(m, allowed)
    decreases |path|
  {
    if path != [] {
      PathMeansKept(m.children[path[0]], path[1..], allowed);
      assert m.children[path[0]] in m.children;
    }
  }

  /** The menus that are visible together with all their ancestors. */
  ghost function VisibleNodes(ms: seq<Menu>): set<Menu> {
    if ms == [] then {}
    else
      (if ms[0].hidden then {} else {ms[0]} + VisibleNodes(ms[0].children)) + VisibleNodes(ms[1..])
  }

  lemma {:induction false} NothingKeptBelow(ms: seq<Menu>, allowed: set<string>)
    requires forall m | m in ms :: !Kept(m, allowed)
    ensures forall m | m in VisibleNodes(ms) :: !Kept(m, allowed)
  {
    if ms != [] {
      assert ms[0] in ms;
      if !ms[0].hidden {
        NothingKeptBelow(ms[0].children, allowed);
      }
      NothingKeptBelow(ms[1..], allowed);
    }
  }

  /** What the filter does with one menu, in terms of what it does below and beside it. */
  lemma FilteredNodes(ms: seq<Menu>, allowed: set<string>)
    requires ms != []
    ensures Nodes(Filtered(ms, allowed)) == Nodes(Filtered(ms[1..], allowed)) +
      if Kept(ms[0], allowed) then {Pruned(ms[0], allowed)} + Nodes(Filtered(ms[0].children, allowed)) else {}
  {
    if Kept(ms[0], allowed) {
      assert Filtered(ms, allowed)[1..] == Filtered(ms[1..], allowed);
    }
  }

  ghost predicate KeptBelow(ms: seq<Menu>, allowed: set<string>, r: Menu) {
    exists m | m in VisibleNodes(ms) && Kept(m, allowed) :: r == Pruned(m, allowed)
  }

  lemma KeptBelowStep(ms: seq<Menu>, allowed: set<string>, r: Menu)
    requires ms != []
    ensures KeptBelow(ms, allowed, r) <==>
      || KeptBelow(ms[1..], allowed, r)
      || (Kept(ms[0], allowed) && (r == Pruned(ms[0], allowed) || KeptBelow(ms[0].children, allowed, r)))
  {
    var head := ms[0];
    assert VisibleNodes(ms) ==
      (if head.hidden then {} else {head} + VisibleNodes(head.children)) + VisibleNodes(ms[1..]);
    if !Kept(head, allowed) && !head.hidden {
      NothingKeptBelow(head.children, allowed);
    }
  }

  /** The filter keeps exactly the menus that are visible with all their ancestors and from
      which some allowed menu can be reached through visible menus. */
  lemma {:induction false} FilteredExactly(ms: seq<Menu>, allowed: set<string>, r: Menu)
    ensures r in Nodes(Filtered(ms, allowed)) <==> KeptBelow(ms, allowed, r)
  {
    if ms != [] {
      FilteredExactly(ms[1..], allowed, r);
      FilteredExactly(ms[0].children, allowed, r);
      FilteredNodes(ms, allowed);
      KeptBelowStep(ms, allowed, r);
    }
  }

  // ------------------------------------------------- idempotent, monotone, in order

  /** `a` is `b` with some menus taken out: the rest in the same order and nesting. */
  ghost predicate TakenFrom(a: seq<Menu>, b: seq<Menu>) {
    || a == []
    || (b != [] &&
        (TakenFrom(a, b[1..]) ||
         (Bare(a[0]) == Bare(b[0]) && TakenFrom(a[0].children, b[0].children) && TakenFrom(a[1..], b[1..]))))
  }

  lemma {:induction false} FilteredIsTakenFrom(ms: seq<Menu>, allowed: set<string>)
    ensures TakenFrom(Filtered(ms, allowed), ms)
  {
    if ms != [] {
      FilteredIsTakenFrom(ms[1..], allowed);
      if Kept(ms[0], allowed) {
        FilteredIsTakenFrom(ms[0].children, allowed);
        assert Filtered(ms, allowed)[1..] == Filtered(ms[1..], allowed);
      }
    }
  }

  lemma {:induction false} KeptMonotone(m: Menu, allowed: set<string>, more: set<string>)
    requires allowed <= more && Kept(m, allowed)
    ensures Kept(m, more)
  {
    if !SelfAllowed(m, allowed) {
      var c :| c in m.children && Kept(c, allowed);
      KeptMonotone(c, allowed, more);
    }
  }

  /** More permissions never hide a menu. */
  lemma {:induction false} FilteredMonotone(ms: seq<Menu>, allowed: set<string>, more: set<string>)
    requires allowed <= more
    ensures TakenFrom(Filtered(ms, allowed), Filtered(ms, more))
  {
    if ms != [] {
      FilteredMonotone(ms[1..], allowed, more);
      var a, b := Filtered(ms, allowed), Filtered(ms, more);
      if Kept(ms[0], allowed) {
        KeptMonotone(ms[0], allowed, more);
        FilteredMonotone(ms[0].children, allowed, more);
        assert a[1..] == Filtered(ms[1..], allowed) && b[1..] == Filtered(ms[1..], more);
      } else if Kept(ms[0], more) {
        assert b[1..] == Filtered(ms[1..], more);
      }
    }
  }

  lemma {:induction false} KeptAfterPruning(m: Menu, allowed: set<string>)
    requires Kept(m, allowed)
    ensures Kept(Pruned(m, allowed), allowed)
  {
    var r := Pruned(m, allowed);
    assert SelfAllowed(r, allowed) == SelfAllowed(m, allowed);
    if !SelfAllowed(m, allowed) {
      KeptChildStays(m.children, allowed);
    }
  }

  lemma {:induction false} KeptChildStays(ms: seq<Menu>, allowed: set<string>)
    requires exists c | c in ms :: Kept(c, allowed)
    ensures exists c | c in Filtered(ms, allowed) :: Kept(c, allowed)
  {
    if Kept(ms[0], allowed) {
      KeptAfterPruning(ms[0], allowed);
      assert Filtered(ms, allowed)[0] == Pruned(ms[0], allowed);
    } else {
      var c :| c in ms && Kept(c, allowed);
      assert c in ms[1..];
      KeptChildStays(ms[1..], allowed);
    }
  }

  /** Filtering again changes nothing. */
  lemma {:induction false} FilteredIdempotent(ms: seq<Menu>, allowed: set<string>)
    ensures Filtered(Filtered(ms, allowed), allowed) == Filtered(ms, allowed)
  {
    if ms != [] {
      FilteredIdempotent(ms[1..], allowed);
      if Kept(ms[0], allowed) {
        FilteredIdempotent(ms[0].children, allowed);
        KeptAfterPruning(ms[0], allowed);
        var out := Filtered(ms, allowed);
        assert out[0] == Pruned(ms[0], allowed) && out[1..] == Filtered(ms[1..], allowed);
      }
    }
  }

  /** A menu the user sees without anything below it has a permission the middleware grants
      the user, or a blank one. */
  lemma ListedLeafIsPermitted(ms: seq<Menu>, roles: seq<Role>, roleIDs: seq<nat>, r: Menu)
    requires DistinctRoleIDs(roles)
    requires r in Nodes(Filtered(ms, ProfileGrants(roles, roleIDs))) && r.children == []
    ensures TrimSpace(r.permission) == "" || PolicyAllows(PolicyOf(roles), roleIDs, r.permission)
  {
    var allowed := ProfileGrants(roles, roleIDs);
    FilteredExactly(ms, allowed, r);
    var m :| m in VisibleNodes(ms) && Kept(m, allowed) && r == Pruned(m, allowed);
    FilteredNonempty(m.children, allowed);
    assert SelfAllowed(m, allowed);
    assert r.permission == Bare(r).permission == m.permission;
    if TrimSpace(r.permission) != "" {
      CleanedMeaning(Held(roles, IDSet(roleIDs)));
      if PERMISSION_ALL !in allowed && r.permission in allowed {
        TrimSpaceFixed(r.permission);
      }
      TrimSpaceBlank("");
      PolicyAgreesWithProfile(roles, roleIDs, r.permission);
    }
  }
}
