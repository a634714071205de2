/**
 What `ValidateModules` accepts, written out: which texts a module may hold, what it
 may refer to, and what no two modules share. Some of the checks of the code follow
 from others and do not occur here.
 */
module PlainRules {
  import opened Domain
  import opened Text
  import opened ModuleRules
  import V = ModuleValidator
  import R = ModuleRegistry

  // ------------------------------------------------------------------ one module

  ghost predicate HasText(s: string) {
    exists c | c in s :: !IsSpace(c)
  }

  /** A lower-case letter, and after it lower-case letters, digits and underscores. */
  ghost predicate IsPlainName(name: string) {
    && |name| > 0 && 'a' <= name[0] <= 'z'
    && forall c | c in name :: 'a' <= c <= 'z' || '0' <= c <= '9' || c == '_'
  }

  /** The trimmed path is the root or lies below it. */
  ghost predicate LiesUnder(path: string, root: string) {
    TrimSpace(path) == root || exists rest :: TrimSpace(path) == root + "/" + rest
  }

  /** No permission is named, or one that the module itself declares. */
  ghost predicate NamesOwnPermission(m: Module, permission: string) {
    HasText(permission) ==> exists p | p in m.permissions :: TrimSpace(p.code) == TrimSpace(permission)
  }

  ghost predicate PlainPermission(m: Module, p: PermissionDefinition) {
    TrimSpace(p.owner) == m.name && exists rest :: TrimSpace(p.code) == m.name + ":" + rest
  }

  ghost predicate PlainBackend(m: Module, r: BackendRoute) {
    && HasText(r.name) && HasText(r.summary)
    && TrimSpace(r.verb) in ["DELETE", "GET", "HEAD", "OPTIONS", "PATCH", "POST", "PUT"]
    && LiesUnder(r.path, "/api/v1/" + m.name)
    && (r.open ==> !HasText(r.permission))
    && NamesOwnPermission(m, r.permission)
  }

  ghost predicate PlainMenu(m: Module, e: MenuEntry) {
    && HasText(e.name)
    && LiesUnder(e.path, "/" + m.name)
    && (HasText(e.parent) ==> exists other | other in m.menus :: TrimSpace(other.name) == TrimSpace(e.parent))
    && NamesOwnPermission(m, e.permission)
  }

  ghost predicate PlainRoute(m: Module, r: FrontendRoute) {
    && HasText(r.name) && HasText(r.component)
    && LiesUnder(r.path, "/" + m.name)
    && NamesOwnPermission(m, r.permission)
  }

  ghost predicate PlainModule(m: Module) {
    && IsPlainName(m.name)
    && (forall p | p in m.permissions :: PlainPermission(m, p))
    && (forall e | e in m.menus :: PlainMenu(m, e))
    && (forall r | r in m.backend :: PlainBackend(m, r))
    && (forall r | r in m.routes :: PlainRoute(m, r))
    && (forall s | s in m.migrations :: HasText(s.driver) && HasText(s.dir))
  }

  lemma BlankMeaning(s: string)
    ensures Blank(s) <==> !HasText(s)
  {
    TrimSpaceBlank(s);
  }

  lemma NameMeaning(name: string)
    ensures ValidName(name) <==> IsPlainName(name)
  {
    if ValidName(name) {
      forall c | c in name ensures NameRune(c) {
      }
    }
    if IsPlainName(name) {
      forall i | 0 <= i < |name| ensures NameRune(name[i]) {
        assert name[i] in name;
      }
    }
  }

  lemma PrefixMeaning(s: string, prefix: string)
    ensures HasPrefix(s, prefix) <==> exists rest :: s == prefix + rest
  {
    if HasPrefix(s, prefix) {
      assert s == prefix + s[|prefix|..];
    }
  }

  lemma UnderMeaning(path: string, root: string)
    ensures PathIn(TrimSpace(path), root) <==> LiesUnder(path, root)
  {
    PrefixMeaning(TrimSpace(path), root + "/");
  }

  /** A path below a root that starts with a prefix starts with it too. */
  lemma UnderStarts(path: string, prefix: string, name: string)
    requires PathIn(path, prefix + name)
    ensures HasPrefix(path, prefix)
  {
    assert (prefix + name)[..|prefix|] == prefix;
    if path != prefix + name {
      assert path[..|prefix|] == (prefix + name + "/")[..|prefix|] == prefix;
    }
  }

  lemma OwnedMeaning(m: Module, permission: string)
    ensures Owned(m, permission) <==> NamesOwnPermission(m, permission)
  {
    BlankMeaning(permission);
    KeyMeaning(m.permissions, PERMISSION_CODE, TrimSpace(permission));
  }

  lemma KeyMeaning<X(!new)>(xs: seq<X>, key: X -> string, k: string)
    ensures k in Keys(xs, key) <==> exists x | x in xs :: key(x) == k
  {
    if k in Keys(xs, key) {
      var i :| 0 <= i < |xs| && Keys(xs, key)[i] == k;
      assert xs[i] in xs;
    }
    if x :| x in xs && key(x) == k {
      var i :| 0 <= i < |xs| && xs[i] == x;
      assert Keys(xs, key)[i] == k;
    }
  }

  lemma PermissionMeaning(m: Module, p: PermissionDefinition)
    requires m.name != ""
    ensures PermissionFine(m, p) <==> PlainPermission(m, p)
  {
    PrefixMeaning(TrimSpace(p.code), m.name + ":");
  }

  lemma BackendMeaning(m: Module, r: BackendRoute)
    ensures BackendShape(m, r) && Owned(m, r.permission) <==> PlainBackend(m, r)
  {
    BlankMeaning(r.name);
    BlankMeaning(r.summary);
    BlankMeaning(r.permission);
    OwnedMeaning(m, r.permission);
    UnderMeaning(r.path, "/api/v1/" + m.name);
    if PathIn(TrimSpace(r.path), "/api/v1/" + m.name) {
      UnderStarts(TrimSpace(r.path), "/api/v1/", m.name);
    }
  }

  lemma ShapeMeaning(m: Module, path: string)
    ensures TrimSpace(path) != "" && HasPrefix(TrimSpace(path), "/") && PathIn(TrimSpace(path), "/" + m.name) <==>
      LiesUnder(path, "/" + m.name)
  {
    UnderMeaning(path, "/" + m.name);
    if PathIn(TrimSpace(path), "/" + m.name) {
      UnderStarts(TrimSpace(path), "/", m.name);
    }
  }

  lemma MenuMeaning(m: Module, e: MenuEntry)
    ensures !Blank(e.name) && MenuShape(m, e) && ParentOwned(m, e) && Owned(m, e.permission) <==> PlainMenu(m, e)
  {
    BlankMeaning(e.name);
    BlankMeaning(e.parent);
    ShapeMeaning(m, e.path);
    KeyMeaning(m.menus, MENU_ENTRY_NAME, TrimSpace(e.parent));
    OwnedMeaning(m, e.permission);
  }

  lemma RouteMeaning(m: Module, r: FrontendRoute)
    ensures RouteShape(m, r) && Owned(m, r.permission) <==> PlainRoute(m, r)
  {
    BlankMeaning(r.name);
    BlankMeaning(r.component);
    ShapeMeaning(m, r.path);
    OwnedMeaning(m, r.permission);
  }

  lemma ModuleMeaning(m: Module)
    ensures ModuleFine(m) <==> PlainModule(m)
  {
    NameMeaning(m.name);
    if m.name != "" {
      forall p | p in m.permissions ensures PermissionFine(m, p) <==> PlainPermission(m, p) {
        PermissionMeaning(m, p);
      }
    }
    forall e | e in m.menus
      ensures !Blank(e.name) && MenuShape(m, e) && ParentOwned(m, e) && Owned(m, e.permission) <==> PlainMenu(m, e)
    {
      MenuMeaning(m, e);
    }
    forall r | r in m.backend ensures BackendShape(m, r) && Owned(m, r.permission) <==> PlainBackend(m, r) {
      BackendMeaning(m, r);
    }
    forall r | r in m.routes ensures RouteShape(m, r) && Owned(m, r.permission) <==> PlainRoute(m, r) {
      RouteMeaning(m, r);
    }
    forall s | s in m.migrations ensures MigrationShape(s) <==> HasText(s.driver) && HasText(s.dir) {
      BlankMeaning(s.driver);
      BlankMeaning(s.dir);
    }
  }

  // ------------------------------------------------------------- across modules

  /** No two parts of any modules have the same key, not even two parts of one module. */
  ghost predicate NoTwo<X(!new)>(mods: seq<Module>, parts: Module -> seq<X>, key: X -> string) {
    forall i, a, j, b | 0 <= i < |mods| && 0 <= a < |parts(mods[i])| && 0 <= j < |mods| && 0 <= b < |parts(mods[j])| &&
      key(parts(mods[i])[a]) == key(parts(mods[j])[b]) :: i == j && a == b
  }

  ghost predicate KeysDiffer(mods: seq<Module>, keys: Module -> seq<string>) {
    forall i, a, j, b | 0 <= i < |mods| && 0 <= a < |keys(mods[i])| && 0 <= j < |mods| && 0 <= b < |keys(mods[j])| &&
      keys(mods[i])[a] == keys(mods[j])[b] :: i == j && a == b
  }

  lemma {:induction false} DifferentExactly(mods: seq<Module>, keys: Module -> seq<string>)
    ensures Different(All(mods, keys)) <==> KeysDiffer(mods, keys)
  {
    if mods != [] {
      var n := |mods| - 1;
      var rest, last := mods[..n], keys(mods[n]);
      V.DifferentConcat(All(rest, keys), last);
      DifferentExactly(rest, keys);
      if KeysDiffer(mods, keys) {
        DifferApart(mods, keys);
      }
      if KeysDiffer(rest, keys) && Different(last) && V.Fresh(V.KeySet(All(rest, keys)), last) {
        DifferTogether(mods, keys);
      }
    }
  }

  lemma DifferApart(mods: seq<Module>, keys: Module -> seq<string>)
    requires mods != [] && KeysDiffer(mods, keys)
    ensures var n := |mods| - 1;
      KeysDiffer(mods[..n], keys) && V.Fresh(V.KeySet(All(mods[..n], keys)), keys(mods[n]))
  {
    var n := |mods| - 1;
    var rest, last := mods[..n], keys(mods[n]);
    forall i, a, j, b | 0 <= i < |rest| && 0 <= a < |keys(rest[i])| && 0 <= j < |rest| && 0 <= b < |keys(rest[j])| &&
      keys(rest[i])[a] == keys(rest[j])[b] ensures i == j && a == b
    {
      assert keys(mods[i])[a] == keys(mods[j])[b];
    }
    forall a, b | 0 <= a < b < |last| ensures last[a] != last[b] {
      assert keys(mods[n])[a] == last[a] && keys(mods[n])[b] == last[b];
    }
    forall k | k in last ensures k !in V.KeySet(All(rest, keys)) {
      var b :| 0 <= b < |last| && last[b] == k;
      if k in All(rest, keys) {
        var i := R.FromAll(rest, keys, k);
        assert false;
      }
    }
  }

  lemma DifferTogether(mods: seq<Module>, keys: Module -> seq<string>)
    requires mods != []
    requires var n := |mods| - 1;
      KeysDiffer(mods[..n], keys) && Different(keys(mods[n])) &&
      V.Fresh(V.KeySet(All(mods[..n], keys)), keys(mods[n]))
    ensures KeysDiffer(mods, keys)
  {
    var n := |mods| - 1;
    var rest, last := mods[..n], keys(mods[n]);
    forall i, a, b | 0 <= i < n && 0 <= a < |keys(mods[i])| && 0 <= b < |last| ensures keys(mods[i])[a] != last[b] {
      assert rest[i] == mods[i] && keys(rest[i])[a] in keys(rest[i]) && last[b] in last;
      V.InAll(rest, i, keys, keys(rest[i])[a]);
    }
    forall i, a, j, b | 0 <= i < |mods| && 0 <= a < |keys(mods[i])| && 0 <= j < |mods| && 0 <= b < |keys(mods[j])| &&
      keys(mods[i])[a] == keys(mods[j])[b] ensures i == j && a == b
    {
      if i < n && j < n {
        assert keys(rest[i])[a] == keys(rest[j])[b];
      }
    }
  }

  lemma NoTwoExactly<X(!new)>(mods: seq<Module>, keys: Module -> seq<string>, parts: Module -> seq<X>, key: X -> string)
    requires forall m :: keys(m) == Keys(parts(m), key)
    ensures Different(All(mods, keys)) <==> NoTwo(mods, parts, key)
  {
    DifferentExactly(mods, keys);
    if KeysDiffer(mods, keys) {
      forall i, a, j, b | 0 <= i < |mods| && 0 <= a < |parts(mods[i])| && 0 <= j < |mods| &&
        0 <= b < |parts(mods[j])| && key(parts(mods[i])[a]) == key(parts(mods[j])[b]) ensures i == j && a == b
      {
        assert keys(mods[i])[a] == keys(mods[j])[b];
      }
    }
    if NoTwo(mods, parts, key) {
      forall i, a, j, b | 0 <= i < |mods| && 0 <= a < |keys(mods[i])| && 0 <= j < |mods| &&
        0 <= b < |keys(mods[j])| && keys(mods[i])[a] == keys(mods[j])[b] ensures i == j && a == b
      {
        assert key(parts(mods[i])[a]) == key(parts(mods[j])[b]);
      }
    }
  }

  // The parts of a module, and the texts in which no two of them may agree.

  const PERMISSIONS := (m: Module) => m.permissions
  const MENUS := (m: Module) => m.menus
  const BACKEND := (m: Module) => m.backend
  const ROUTES := (m: Module) => m.routes
  const MIGRATIONS := (m: Module) => m.migrations

  const CODE := (p: PermissionDefinition) => TrimSpace(p.code)
  const MENU_NAME := (e: MenuEntry) => TrimSpace(e.name)
  const MENU_PATH := (e: MenuEntry) => TrimSpace(e.path)
  const BACKEND_ROUTE_NAME := (r: BackendRoute) => TrimSpace(r.name)
  const VERB_AND_PATH := (r: BackendRoute) => TrimSpace(r.verb) + " " + TrimSpace(r.path)
  const FRONTEND_ROUTE_NAME := (r: FrontendRoute) => TrimSpace(r.name)
  const FRONTEND_PATH := (r: FrontendRoute) => TrimSpace(r.path)
  const DRIVER_AND_DIR := (s: MigrationSet) => TrimSpace(s.driver + " " + s.dir)

  ghost predicate NothingShared(mods: seq<Module>) {
    && (forall i, j | 0 <= i < j < |mods| :: mods[i].name != mods[j].name)
    && NoTwo(mods, PERMISSIONS, CODE)
    && NoTwo(mods, MENUS, MENU_NAME)
    && NoTwo(mods, MENUS, MENU_PATH)
    && NoTwo(mods, BACKEND, BACKEND_ROUTE_NAME)
    && NoTwo(mods, BACKEND, VERB_AND_PATH)
    && NoTwo(mods, ROUTES, FRONTEND_ROUTE_NAME)
    && NoTwo(mods, ROUTES, FRONTEND_PATH)
    && NoTwo(mods, MIGRATIONS, DRIVER_AND_DIR)
  }

  /** A menu and a route on one path show the same component. */
  ghost predicate SamePathSameComponent(mods: seq<Module>) {
    forall i, a, j, b | 0 <= i < |mods| && 0 <= a < |mods[i].menus| && 0 <= j < |mods| && 0 <= b < |mods[j].routes| &&
      TrimSpace(mods[i].menus[a].path) == TrimSpace(mods[j].routes[b].path) ::
      TrimSpace(mods[i].menus[a].component) == TrimSpace(mods[j].routes[b].component)
  }

  ghost predicate PlainlyAccepted(mods: seq<Module>) {
    (forall m | m in mods :: PlainModule(m)) && NothingShared(mods) && SamePathSameComponent(mods)
  }

  lemma NamesMeaning(mods: seq<Module>)
    ensures Different(All(mods, NAMES)) <==> forall i, j | 0 <= i < j < |mods| :: mods[i].name != mods[j].name
  {
    forall i | 0 <= i < |mods| ensures |All(mods, NAMES)| == |mods| && All(mods, NAMES)[i] == mods[i].name {
      V.NamesInOrder(mods, i);
    }
  }

  /** A trimmed verb and a trimmed path that are not blank have nothing to trim between them. */
  lemma PatternMeaning(r: BackendRoute)
    requires HasText(r.verb) && HasText(r.path)
    ensures BACKEND_PATTERN(r) == VERB_AND_PATH(r)
  {
    BlankMeaning(r.verb);
    BlankMeaning(r.path);
    TrimSpaceTrims(r.verb);
    TrimSpaceTrims(r.path);
    TrimSpaceFixed(VERB_AND_PATH(r));
  }

  lemma ComponentsMeaning(mods: seq<Module>)
    ensures ComponentsMatch(mods) <==> SamePathSameComponent(mods)
  {
    if ComponentsMatch(mods) {
      forall i, a, j, b | 0 <= i < |mods| && 0 <= a < |mods[i].menus| && 0 <= j < |mods| && 0 <= b < |mods[j].routes| &&
        TrimSpace(mods[i].menus[a].path) == TrimSpace(mods[j].routes[b].path)
        ensures TrimSpace(mods[i].menus[a].component) == TrimSpace(mods[j].routes[b].component)
      {
        var m, n := mods[i], mods[j];
        assert m in mods && n in mods && m.menus[a] in m.menus && n.routes[b] in n.routes;
      }
    }
    if SamePathSameComponent(mods) {
      forall m, n, e, r | m in mods && n in mods && e in m.menus && r in n.routes &&
                          TrimSpace(e.path) == TrimSpace(r.path)
        ensures TrimSpace(e.component) == TrimSpace(r.component)
      {
        var i :| 0 <= i < |mods| && mods[i] == m;
        var j :| 0 <= j < |mods| && mods[j] == n;
        var a :| 0 <= a < |m.menus| && m.menus[a] == e;
        var b :| 0 <= b < |n.routes| && n.routes[b] == r;
        assert TrimSpace(mods[i].menus[a].path) == TrimSpace(mods[j].routes[b].path);
      }
    }
  }

  /** Keys that agree wherever a part of the list is asked for one. */
  lemma NoTwoSame<X(!new)>(mods: seq<Module>, parts: Module -> seq<X>, key: X -> string, other: X -> string)
    requires forall m, x | m in mods && x in parts(m) :: key(x) == other(x)
    ensures NoTwo(mods, parts, key) <==> NoTwo(mods, parts, other)
  {
    forall i, a | 0 <= i < |mods| && 0 <= a < |parts(mods[i])|
      ensures key(parts(mods[i])[a]) == other(parts(mods[i])[a])
    {
      assert mods[i] in mods && parts(mods[i])[a] in parts(mods[i]);
    }
  }

  lemma PatternsMeaning(mods: seq<Module>)
    requires forall m | m in mods :: PlainModule(m)
    ensures Different(All(mods, BACKEND_PATTERNS)) <==> NoTwo(mods, BACKEND, VERB_AND_PATH)
  {
    NoTwoExactly(mods, BACKEND_PATTERNS, BACKEND, BACKEND_PATTERN);
    forall m, r | m in mods && r in BACKEND(m) ensures BACKEND_PATTERN(r) == VERB_AND_PATH(r) {
      BackendHasText(m, r);
      PatternMeaning(r);
    }
    NoTwoSame(mods, BACKEND, BACKEND_PATTERN, VERB_AND_PATH);
  }

  lemma BackendHasText(m: Module, r: BackendRoute)
    requires PlainBackend(m, r)
    ensures HasText(r.verb) && HasText(r.path)
  {
    BlankMeaning(r.verb);
    BlankMeaning(r.path);
  }

  lemma SharedKeysMeaning(mods: seq<Module>)
    ensures Different(All(mods, CODES)) <==> NoTwo(mods, PERMISSIONS, CODE)
    ensures Different(All(mods, MENU_NAMES)) <==> NoTwo(mods, MENUS, MENU_NAME)
    ensures Different(All(mods, MENU_PATHS)) <==> NoTwo(mods, MENUS, MENU_PATH)
    ensures Different(All(mods, BACKEND_NAMES)) <==> NoTwo(mods, BACKEND, BACKEND_ROUTE_NAME)
    ensures Different(All(mods, ROUTE_NAMES)) <==> NoTwo(mods, ROUTES, FRONTEND_ROUTE_NAME)
    ensures Different(All(mods, ROUTE_PATHS)) <==> NoTwo(mods, ROUTES, FRONTEND_PATH)
    ensures Different(All(mods, MIGRATION_KEYS)) <==> NoTwo(mods, MIGRATIONS, DRIVER_AND_DIR)
  {
    NoTwoExactly(mods, CODES, PERMISSIONS, CODE);
    NoTwoExactly(mods, MENU_NAMES, MENUS, MENU_NAME);
    NoTwoExactly(mods, MENU_PATHS, MENUS, MENU_PATH);
    NoTwoExactly(mods, BACKEND_NAMES, BACKEND, BACKEND_ROUTE_NAME);
    NoTwoExactly(mods, ROUTE_NAMES, ROUTES, FRONTEND_ROUTE_NAME);
    NoTwoExactly(mods, ROUTE_PATHS, ROUTES, FRONTEND_PATH);
    NoTwoExactly(mods, MIGRATION_KEYS, MIGRATIONS, DRIVER_AND_DIR);
  }

  /** `ValidateModules` accepts exactly the lists of plain modules that share nothing. */
  lemma AcceptedExactly(mods: seq<Module>)
    ensures Accepted(mods) <==> PlainlyAccepted(mods)
  {
    forall m | m in mods ensures ModuleFine(m) <==> PlainModule(m) {
      ModuleMeaning(m);
    }
    NamesMeaning(mods);
    SharedKeysMeaning(mods);
    if forall m | m in mods :: PlainModule(m) {
      PatternsMeaning(mods);
    }
    ComponentsMeaning(mods);
  }
}
