/**
 `ValidateModules` as a whole, the registry of accepted modules, and the permission
 catalog built from it.
 */
module ModuleRegistry {
  import opened Domain
  import opened Text
  import opened ModuleRules
  import opened ModuleValidator
  import opened Sorting
  import MF = MigrationFiles

  /** String comparison. */
  predicate Less(a: string, b: string) { MF.Less(a, b) }

  // ------------------------------------------------------------- the last look

  /** The menu shows the component of the route on its path, if there is one. */
  predicate ComponentFine(byPath: Components, e: MenuEntry) {
    var path := TrimSpace(e.path);
    path in byPath ==> TrimSpace(e.component) == TrimSpace(byPath[path].component)
  }

  method CheckComponents(mods: seq<Module>, byPath: Components) returns (ok: bool)
    ensures ok <==> forall m, e | m in mods && e in m.menus :: ComponentFine(byPath, e)
  {
    for i := 0 to |mods|
      invariant forall k, e | 0 <= k < i && e in mods[k].menus :: ComponentFine(byPath, e)
    {
      assert mods[i] in mods;
      ok := CheckModuleComponents(mods[i], byPath);
      if !ok {
        return;
      }
    }
    ok := true;
  }

  method CheckModuleComponents(m: Module, byPath: Components) returns (ok: bool)
    ensures ok <==> forall e | e in m.menus :: ComponentFine(byPath, e)
  {
    for i := 0 to |m.menus|
      invariant forall k | 0 <= k < i :: ComponentFine(byPath, m.menus[k])
    {
      var e := m.menus[i];
      assert e in m.menus;
      if TrimSpace(e.path) !in byPath {
        continue;
      }
      if TrimSpace(e.component) != TrimSpace(byPath[TrimSpace(e.path)].component) {
        return false;
      }
    }
    ok := true;
  }

  /** Keys without duplicates identify the module and the place. */
  lemma KeyIdentifies(mods: seq<Module>, keys: Module -> seq<string>, i: nat, a: nat, j: nat, b: nat)
    requires Different(All(mods, keys)) && i <= j < |mods|
    requires a < |keys(mods[i])| && b < |keys(mods[j])| && keys(mods[i])[a] == keys(mods[j])[b]
    ensures i == j && a == b
  {
    AllPrefix(mods, j + 1, keys);
    assert mods[..j + 1][..j] == mods[..j];
    DifferentConcat(All(mods[..j], keys), keys(mods[j]));
    assert keys(mods[i])[a] in keys(mods[i]) && keys(mods[j])[b] in keys(mods[j]);
    if i < j {
      InAll(mods[..j], i, keys, keys(mods[i])[a]);
      assert false;
    }
  }

  lemma SamePathSameRoute(mods: seq<Module>, byPath: Components, n: Module, r: FrontendRoute)
    requires RoutesFiled(byPath, mods) && Different(All(mods, ROUTE_PATHS))
    requires n in mods && r in n.routes
    ensures TrimSpace(r.path) in byPath && byPath[TrimSpace(r.path)] == r
  {
    var p := TrimSpace(r.path);
    var j :| 0 <= j < |mods| && mods[j] == n;
    var k :| 0 <= k < |n.routes| && n.routes[k] == r;
    assert ROUTE_PATHS(mods[j])[k] == p;
    assert RouteAt(byPath[p], p, mods);
    var i :| 0 <= i < |mods| && FiledAs(byPath[p], p, mods[i].routes, ROUTE_PATHS(mods[i]), |mods[i].routes|);
    var a :| 0 <= a < |mods[i].routes| && ROUTE_PATHS(mods[i])[a] == p && mods[i].routes[a] == byPath[p];
    if i <= j {
      KeyIdentifies(mods, ROUTE_PATHS, i, a, j, k);
    } else {
      KeyIdentifies(mods, ROUTE_PATHS, j, k, i, a);
    }
  }

  lemma FiledRoute(mods: seq<Module>, byPath: Components, p: string) returns (n: Module, r: FrontendRoute)
    requires RoutesFiled(byPath, mods) && p in byPath
    ensures n in mods && r in n.routes && TrimSpace(r.path) == p && byPath[p] == r
  {
    assert RouteAt(byPath[p], p, mods);
    var i :| 0 <= i < |mods| && FiledAs(byPath[p], p, mods[i].routes, ROUTE_PATHS(mods[i]), |mods[i].routes|);
    var a :| 0 <= a < |mods[i].routes| && ROUTE_PATHS(mods[i])[a] == p && mods[i].routes[a] == byPath[p];
    n, r := mods[i], mods[i].routes[a];
    assert ROUTE_PATHS(mods[i])[a] == TrimSpace(r.path);
  }

  /** Looking components up by path is comparing every menu with every route on its path. */
  lemma ComponentsByMap(mods: seq<Module>, byPath: Components)
    requires RoutesFiled(byPath, mods) && Different(All(mods, ROUTE_PATHS))
    ensures (forall m, e | m in mods && e in m.menus :: ComponentFine(byPath, e)) <==> ComponentsMatch(mods)
  {
    if forall m, e | m in mods && e in m.menus :: ComponentFine(byPath, e) {
      forall m, n, e, r | m in mods && n in mods && e in m.menus && r in n.routes &&
                          TrimSpace(e.path) == TrimSpace(r.path)
        ensures TrimSpace(e.component) == TrimSpace(r.component)
      {
        SamePathSameRoute(mods, byPath, n, r);
        assert ComponentFine(byPath, e);
      }
    }
    if ComponentsMatch(mods) {
      forall m, e | m in mods && e in m.menus ensures ComponentFine(byPath, e) {
        if TrimSpace(e.path) in byPath {
          var n, r := FiledRoute(mods, byPath, TrimSpace(e.path));
        }
      }
    }
  }

  // ----------------------------------------------------------------- the whole

  /** The two passes together ask of a module what the rules ask. */
  lemma PassesAreRules(mods: seq<Module>, i: nat)
    requires i < |mods| && FirstDifferent(mods) && FirstFine(mods[i])
    ensures SecondFine(mods[i], AddedAll(mods, CODES), AddedAll(mods, MENU_NAMES)) <==> ModuleFine(mods[i])
  {
    var m, codes, menuNames := mods[i], AddedAll(mods, CODES), AddedAll(mods, MENU_NAMES);
    forall r | r in m.backend ensures BackendFine(m, codes, r) <==> BackendShape(m, r) && Owned(m, r.permission) {
      OwnedByMap(mods, i, CODES, r.permission);
    }
    forall e | e in m.menus ensures MenuFine(m, codes, menuNames, e) <==>
      MenuShape(m, e) && ParentOwned(m, e) && Owned(m, e.permission)
    {
      OwnedByMap(mods, i, CODES, e.permission);
      OwnedByMap(mods, i, MENU_NAMES, e.parent);
    }
    forall r | r in m.routes ensures RouteFine(m, codes, r) <==> RouteShape(m, r) && Owned(m, r.permission) {
      OwnedByMap(mods, i, CODES, r.permission);
    }
  }

  lemma AcceptedByPasses(mods: seq<Module>)
    ensures Accepted(mods) <==>
      FirstPasses(mods) && SecondPasses(mods, AddedAll(mods, CODES), AddedAll(mods, MENU_NAMES)) &&
      ComponentsMatch(mods)
  {
    if FirstDifferent(mods) {
      forall i | 0 <= i < |mods|
        ensures ModuleFine(mods[i]) <==>
          FirstFine(mods[i]) && SecondFine(mods[i], AddedAll(mods, CODES), AddedAll(mods, MENU_NAMES))
      {
        if FirstFine(mods[i]) {
          PassesAreRules(mods, i);
        } else {
          FineIsFirstFine(mods[i]);
        }
      }
      forall m | m in mods && (forall k | 0 <= k < |mods| :: ModuleFine(mods[k])) ensures ModuleFine(m) {
      }
    }
  }

  lemma FineIsFirstFine(m: Module)
    ensures ModuleFine(m) ==> FirstFine(m)
  {
  }

  /** `ValidateModules` returns no error exactly for the accepted lists. */
  method ValidateModules(mods: seq<Module>) returns (ok: bool)
    ensures ok <==> Accepted(mods)
  {
    AcceptedByPasses(mods);
    var codes, menuNames, byPath;
    ok, codes, menuNames := FirstPass(mods);
    if !ok {
      return;
    }
    ok, byPath := SecondPass(mods, codes, menuNames);
    if !ok {
      return;
    }
    ComponentsByMap(mods, byPath);
    ok := CheckComponents(mods, byPath);
  }

  // -------------------------------------------------------------- the registry

  const BY_NAME := (a: Module, b: Module) => Less(a.name, b.name)

  /** Sorted by name, no name twice. */
  ghost predicate ByName(mods: seq<Module>) {
    Strict(mods, BY_NAME)
  }

  ghost predicate NamesDiffer(mods: seq<Module>) {
    forall i, j | 0 <= i < j < |mods| :: mods[i].name != mods[j].name
  }

  /** `sort.Slice` by name leaves one order only. */
  lemma SortsByName(mods: seq<Module>)
    requires NamesDiffer(mods)
    ensures ByName(Sort(mods, BY_NAME))
  {
    forall i, j | 0 <= i < j < |mods| ensures BY_NAME(mods[i], mods[j]) || BY_NAME(mods[j], mods[i]) {
      MF.LessTotal(mods[i].name, mods[j].name);
    }
    ByNameIsAnOrder();
    SortStrict(mods, BY_NAME);
  }

  lemma ByNameIsAnOrder()
    ensures WeakOrder(BY_NAME)
  {
    MF.LessIsAnOrder();
    assert forall a: string, b: string :: MF.LESS(a, b) == Less(a, b);
  }

  lemma ByNameMeaning(mods: seq<Module>)
    requires ByName(mods)
    ensures forall i, j | 0 <= i < j < |mods| :: MF.ComesBefore(mods[i].name, mods[j].name)
  {
    forall i, j | 0 <= i < j < |mods| ensures MF.ComesBefore(mods[i].name, mods[j].name) {
      assert BY_NAME(mods[i], mods[j]);
      MF.LessMeaning(mods[i].name, mods[j].name);
    }
  }

  lemma {:induction false} CountOnce(mods: seq<Module>, x: Module)
    requires NamesDiffer(mods)
    ensures multiset(mods)[x] == if x in mods then 1 else 0
  {
    if mods != [] {
      assert mods == [mods[0]] + mods[1..];
      CountOnce(mods[1..], x);
    }
  }

  /** The list holds exactly the registered modules, in order of their names. */
  ghost predicate Lists(list: seq<Module>, modules: map<string, Module>) {
    ByName(list) && forall m :: m in list <==> m.name in modules && modules[m.name] == m
  }

  class Registry {
    var modules: map<string, Module>

    /** Modules are filed under their own nonempty names. */
    ghost predicate Valid()
      reads this
    {
      forall name | name in modules :: name != "" && modules[name].name == name
    }

    constructor ()
      ensures Valid() && modules == map[]
    {
      modules := map[];
    }

    method Register(mod: Module)
      requires Valid()
      modifies this
      ensures Valid()
      ensures modules == if mod.name == "" then old(modules) else old(modules)[mod.name := mod]
    {
      if mod.name == "" {
        return;
      }
      modules := modules[mod.name := mod];
    }

    /** `List`: every registered module once, by name. */
    method List() returns (items: seq<Module>)
      requires Valid()
      ensures Lists(items, modules)
      ensures forall i, j | 0 <= i < j < |items| :: MF.ComesBefore(items[i].name, items[j].name)
    {
      var found: seq<Module> := [];
      var pending := modules.Keys;
      while pending != {}
        invariant pending <= modules.Keys
        invariant NamesDiffer(found)
        invariant forall m | m in found :: m.name in modules && m.name !in pending && modules[m.name] == m
        invariant forall name | name in modules && name !in pending :: modules[name] in found
        decreases |pending|
      {
        var name :| name in pending;
        pending := pending - {name};
        found := found + [modules[name]];
      }
      SortsByName(found);
      SortMembers(found, BY_NAME);
      items := Sort(found, BY_NAME);
      ByNameMeaning(items);
    }

    /** `Permissions`: the permissions of the listed modules in a row. */
    method Permissions() returns (permissions: seq<PermissionDefinition>)
      requires Valid()
      ensures exists list :: Lists(list, modules) && permissions == PermissionsOf(list)
    {
      var items := List();
      permissions := [];
      for i := 0 to |items|
        invariant permissions == PermissionsOf(items[..i])
      {
        assert items[..i + 1][..i] == items[..i];
        permissions := permissions + items[i].permissions;
      }
      assert items[..|items|] == items;
    }
  }

  function PermissionsOf(mods: seq<Module>): seq<PermissionDefinition> {
    if mods == [] then [] else PermissionsOf(mods[..|mods| - 1]) + mods[|mods| - 1].permissions
  }

  /** The modules by name, later ones over earlier ones. */
  function Filing(mods: seq<Module>): map<string, Module> {
    if mods == [] then map[]
    else
      var before, last := Filing(mods[..|mods| - 1]), mods[|mods| - 1];
      if last.name == "" then before else before[last.name := last]
  }

  /** `NewRegistry`. */
  method NewRegistry(mods: seq<Module>) returns (registry: Registry)
    ensures fresh(registry) && registry.Valid() && registry.modules == Filing(mods)
  {
    registry := new Registry();
    for i := 0 to |mods|
      invariant fresh(registry) && registry.Valid() && registry.modules == Filing(mods[..i])
    {
      assert mods[..i + 1][..i] == mods[..i];
      registry.Register(mods[i]);
    }
    assert mods[..|mods|] == mods;
  }

  lemma {:induction false} FilingHas(mods: seq<Module>, m: Module)
    requires NamesDiffer(mods) && forall x | x in mods :: x.name != ""
    ensures m in mods <==> m.name in Filing(mods) && Filing(mods)[m.name] == m
    ensures m.name in Filing(mods) ==> exists x | x in mods :: x.name == m.name
  {
    if mods != [] {
      var rest, last := mods[..|mods| - 1], mods[|mods| - 1];
      assert mods == rest + [last];
      FilingHas(rest, m);
      assert forall x | x in rest :: x in mods;
      assert last in mods;
      if m in rest {
        var i :| 0 <= i < |rest| && rest[i] == m;
        assert mods[i].name != mods[|rest|].name;
      }
    }
  }

  lemma AcceptedNamesDiffer(mods: seq<Module>)
    requires Accepted(mods)
    ensures NamesDiffer(mods) && forall m | m in mods :: m.name != ""
  {
    forall i, j | 0 <= i < j < |mods| ensures mods[i].name != mods[j].name {
      NamesInOrder(mods, i);
      NamesInOrder(mods, j);
    }
    forall m | m in mods ensures m.name != "" {
      FineIsFirstFine(m);
    }
  }

  /** The list of a registry of accepted modules is the name-sorted permutation of them. */
  lemma ListIsSortedPermutation(mods: seq<Module>, list: seq<Module>)
    requires Accepted(mods)
    requires Lists(list, Filing(mods))
    ensures multiset(list) == multiset(mods)
  {
    AcceptedNamesDiffer(mods);
    forall i, j | 0 <= i < j < |list| ensures list[i].name != list[j].name {
      MF.LessTotal(list[i].name, list[j].name);
    }
    forall x ensures multiset(list)[x] == multiset(mods)[x] {
      FilingHas(mods, x);
      CountOnce(list, x);
      CountOnce(mods, x);
    }
  }

  // ----------------------------------------------------- the permission catalog

  function CodesOf(items: seq<PermissionDefinition>): seq<string> {
    Keys(items, PERMISSION_CODE)
  }

  /** The definitions with a code that is not blank and has not occurred before. */
  function FirstDefinitions(items: seq<PermissionDefinition>): seq<PermissionDefinition> {
    if items == [] then []
    else
      var before, last := FirstDefinitions(items[..|items| - 1]), items[|items| - 1];
      if Blank(last.code) || TrimSpace(last.code) in CodesOf(before) then before else before + [last]
  }

  function Flat(sets: seq<seq<PermissionDefinition>>): seq<PermissionDefinition> {
    if sets == [] then [] else Flat(sets[..|sets| - 1]) + sets[|sets| - 1]
  }

  /** `newPermissionCatalog`; `builtIn` stands for the built-in system permissions. */
  method NewPermissionCatalog(builtIn: seq<PermissionDefinition>, sets: seq<seq<PermissionDefinition>>)
    returns (out: seq<PermissionDefinition>)
    ensures var first := FirstDefinitions(Flat(sets));
      out == if first == [] then builtIn else first
  {
    if |sets| == 0 {
      return builtIn;
    }
    out := [];
    var seen: set<string> := {};
    for i := 0 to |sets|
      invariant Cataloged(out, seen, Flat(sets[..i]))
    {
      assert sets[..i + 1][..i] == sets[..i];
      ghost var before := Flat(sets[..i]);
      assert before + sets[i][..0] == before;
      for j := 0 to |sets[i]|
        invariant Cataloged(out, seen, before + sets[i][..j])
      {
        var permission := sets[i][j];
        assert before + sets[i][..j + 1] == before + sets[i][..j] + [permission];
        CatalogStep(out, seen, before + sets[i][..j], permission);
        var code := TrimSpace(permission.code);
        if code == "" {
          continue;
        }
        if code in seen {
          continue;
        }
        seen := seen + {code};
        out := out + [permission];
      }
      assert sets[i][..|sets[i]|] == sets[i];
    }
    assert sets[..|sets|] == sets;
    if |out| == 0 {
      out := builtIn;
    }
  }

  ghost predicate Cataloged(out: seq<PermissionDefinition>, seen: set<string>, items: seq<PermissionDefinition>) {
    out == FirstDefinitions(items) && seen == KeySet(CodesOf(out))
  }

  lemma CatalogStep(out: seq<PermissionDefinition>, seen: set<string>, items: seq<PermissionDefinition>,
                    p: PermissionDefinition)
    requires Cataloged(out, seen, items)
    ensures var code := TrimSpace(p.code);
      if code == "" || code in seen then Cataloged(out, seen, items + [p])
      else Cataloged(out + [p], seen + {code}, items + [p])
  {
    assert (items + [p])[..|items|] == items;
    assert CodesOf(out + [p]) == CodesOf(out) + [TrimSpace(p.code)];
  }

  lemma {:induction false} NothingDropped(items: seq<PermissionDefinition>)
    requires Different(CodesOf(items)) && forall p | p in items :: !Blank(p.code)
    ensures FirstDefinitions(items) == items
  {
    if items != [] {
      var rest, last := items[..|items| - 1], items[|items| - 1];
      assert items == rest + [last];
      assert last in items;
      assert CodesOf(items) == CodesOf(rest) + [TrimSpace(last.code)];
      DifferentConcat(CodesOf(rest), [TrimSpace(last.code)]);
      assert TrimSpace(last.code) in [TrimSpace(last.code)];
      assert forall p | p in rest :: p in items;
      NothingDropped(rest);
    }
  }

  lemma {:induction false} CodesInARow(list: seq<Module>)
    ensures CodesOf(PermissionsOf(list)) == All(list, CODES)
  {
    if list != [] {
      var rest, last := list[..|list| - 1], list[|list| - 1];
      CodesInARow(rest);
      assert CodesOf(PermissionsOf(rest) + last.permissions) ==
        CodesOf(PermissionsOf(rest)) + CodesOf(last.permissions);
    }
  }

  /** Keys without duplicates stay so in any order of the modules. */
  lemma {:induction false} DifferentInAnyOrder(mods: seq<Module>, keys: Module -> seq<string>, list: seq<Module>)
    requires Different(All(mods, keys)) && NamesDiffer(list) && forall m | m in list :: m in mods
    ensures Different(All(list, keys))
    decreases |list|
  {
    if list != [] {
      var rest, last := list[..|list| - 1], list[|list| - 1];
      assert list == rest + [last];
      assert last in list && forall m | m in rest :: m in list;
      DifferentInAnyOrder(mods, keys, rest);
      var j :| 0 <= j < |mods| && mods[j] == last;
      AllPrefix(mods, j + 1, keys);
      assert mods[..j + 1][..j] == mods[..j];
      DifferentConcat(All(mods[..j], keys), keys(mods[j]));
      forall k | k in keys(last) ensures k !in All(rest, keys) {
        if k in All(rest, keys) {
          KeyInTwo(mods, keys, rest, last, k);
        }
      }
      DifferentConcat(All(rest, keys), keys(last));
    }
  }

  lemma {:induction false} FromAll(list: seq<Module>, keys: Module -> seq<string>, k: string) returns (i: nat)
    requires k in All(list, keys)
    ensures i < |list| && k in keys(list[i])
  {
    if k in keys(list[|list| - 1]) {
      i := |list| - 1;
    } else {
      i := FromAll(list[..|list| - 1], keys, k);
    }
  }

  lemma KeyInTwo(mods: seq<Module>, keys: Module -> seq<string>, rest: seq<Module>, last: Module, k: string)
    requires Different(All(mods, keys)) && k in All(rest, keys) && k in keys(last)
    requires last in mods && (forall m | m in rest :: m in mods)
    ensures exists i | 0 <= i < |rest| :: rest[i] == last
  {
    var i := FromAll(rest, keys, k);
    assert rest[i] in rest;
    var a :| 0 <= a < |mods| && mods[a] == rest[i];
    var b :| 0 <= b < |mods| && mods[b] == last;
    var x :| 0 <= x < |keys(mods[a])| && keys(mods[a])[x] == k;
    var y :| 0 <= y < |keys(mods[b])| && keys(mods[b])[y] == k;
    if a <= b {
      KeyIdentifies(mods, keys, a, x, b, y);
    } else {
      KeyIdentifies(mods, keys, b, y, a, x);
    }
  }

  /** The catalog built from the permissions of accepted modules, in the order of the registry,
      drops none of them. */
  lemma CatalogDropsNothing(mods: seq<Module>, list: seq<Module>)
    requires Accepted(mods)
    requires Lists(list, Filing(mods))
    ensures FirstDefinitions(PermissionsOf(list)) == PermissionsOf(list)
  {
    AcceptedNamesDiffer(mods);
    forall m | m in list ensures m in mods {
      FilingHas(mods, m);
    }
    forall i, j | 0 <= i < j < |list| ensures list[i].name != list[j].name {
      MF.LessTotal(list[i].name, list[j].name);
    }
    DifferentInAnyOrder(mods, CODES, list);
    CodesInARow(list);
    NoBlankCodes(mods, list);
    NothingDropped(PermissionsOf(list));
  }

  lemma {:induction false} NoBlankCodes(mods: seq<Module>, list: seq<Module>)
    requires Accepted(mods) && forall m | m in list :: m in mods
    ensures forall p | p in PermissionsOf(list) :: !Blank(p.code)
    decreases |list|
  {
    if list != [] {
      var rest, last := list[..|list| - 1], list[|list| - 1];
      assert list == rest + [last];
      assert last in list && forall m | m in rest :: m in list;
      NoBlankCodes(mods, rest);
      assert ModuleFine(last);
      forall p | p in last.permissions ensures !Blank(p.code) {
        assert PermissionFine(last, p);
      }
    }
  }

  /** In accepted modules, a path of one module lies in no other module's namespace. */
  lemma PathsOfModulesDisjoint(mods: seq<Module>, m: Module, n: Module, path: string, root: string)
    requires Accepted(mods) && m in mods && n in mods
    requires PathIn(path, root + "/" + m.name) && PathIn(path, root + "/" + n.name)
    ensures m == n
  {
    FineIsFirstFine(m);
    FineIsFirstFine(n);
    NamespacesDisjoint(path, root, m.name, n.name);
    AcceptedNamesDiffer(mods);
    var i :| 0 <= i < |mods| && mods[i] == m;
    var j :| 0 <= j < |mods| && mods[j] == n;
  }
}
