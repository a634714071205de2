/** Modules, and what it means for a list of them to be valid. */
module ModuleRules {
  import opened Domain
  import opened Text

  datatype BackendRoute = BackendRoute(
    name: string, verb: string, path: string, open: bool, permission: string, summary: string)

  datatype MenuEntry = MenuEntry(
    name: string, parent: string, title: string, path: string, icon: string, component: string,
    permission: string, sort: int, hidden: bool)

  datatype FrontendRoute = FrontendRoute(
    name: string, path: string, component: string, title: string, permission: string)

  datatype MigrationSet = MigrationSet(driver: string, dir: string, seedsDir: string)

  datatype Module = Module(
    name: string, title: string, version: string, description: string,
    permissions: seq<PermissionDefinition>, backend: seq<BackendRoute>, menus: seq<MenuEntry>,
    routes: seq<FrontendRoute>, migrations: seq<MigrationSet>)

  const METHODS := {"DELETE", "GET", "HEAD", "OPTIONS", "PATCH", "POST", "PUT"}

  // -------------------------------------------------------------------- names

  predicate NameRune(c: char) {
    'a' <= c <= 'z' || '0' <= c <= '9' || c == '_'
  }

  /** `IsValidName`: a lower-case letter, then lower-case letters, digits and underscores. */
  predicate ValidName(name: string) {
    name != "" && 'a' <= name[0] <= 'z' && forall i | 0 <= i < |name| :: NameRune(name[i])
  }

  predicate Blank(s: string) { TrimSpace(s) == "" }

  /** A valid name has no space, so trimming leaves it. */
  lemma ValidNameTrimmed(name: string)
    requires ValidName(name)
    ensures TrimSpace(name) == name
  {
    assert NameRune(name[0]) && NameRune(name[|name| - 1]);
    TrimSpaceFixed(name);
  }

  predicate PathIn(path: string, namespace: string) {
    path == namespace || HasPrefix(path, namespace + "/")
  }

  // --------------------------------------------------------- the keys of a module

  function Keys<X>(xs: seq<X>, key: X -> string): (r: seq<string>)
    ensures |r| == |xs|
  {
    seq(|xs|, i requires 0 <= i < |xs| => key(xs[i]))
  }

  const PERMISSION_CODE := (p: PermissionDefinition) => TrimSpace(p.code)
  const MENU_ENTRY_NAME := (m: MenuEntry) => TrimSpace(m.name)
  const MENU_ENTRY_PATH := (m: MenuEntry) => TrimSpace(m.path)
  const BACKEND_NAME := (r: BackendRoute) => TrimSpace(r.name)
  const BACKEND_PATTERN := (r: BackendRoute) => TrimSpace(TrimSpace(r.verb) + " " + TrimSpace(r.path))
  const ROUTE_NAME := (r: FrontendRoute) => TrimSpace(r.name)
  const ROUTE_PATH := (r: FrontendRoute) => TrimSpace(r.path)
  const MIGRATION_KEY := (s: MigrationSet) => TrimSpace(s.driver + " " + s.dir)

  const NAMES := (m: Module) => [m.name]
  const CODES := (m: Module) => Keys(m.permissions, PERMISSION_CODE)
  const MENU_NAMES := (m: Module) => Keys(m.menus, MENU_ENTRY_NAME)
  const MENU_PATHS := (m: Module) => Keys(m.menus, MENU_ENTRY_PATH)
  const BACKEND_NAMES := (m: Module) => Keys(m.backend, BACKEND_NAME)
  const BACKEND_PATTERNS := (m: Module) => Keys(m.backend, BACKEND_PATTERN)
  const ROUTE_NAMES := (m: Module) => Keys(m.routes, ROUTE_NAME)
  const ROUTE_PATHS := (m: Module) => Keys(m.routes, ROUTE_PATH)
  const MIGRATION_KEYS := (m: Module) => Keys(m.migrations, MIGRATION_KEY)

  /** The keys of all modules in a row. */
  function All(mods: seq<Module>, keys: Module -> seq<string>): seq<string> {
    if mods == [] then []
    else All(mods[..|mods| - 1], keys) + keys(mods[|mods| - 1])
  }

  ghost predicate Different(keys: seq<string>) {
    forall i, j | 0 <= i < j < |keys| :: keys[i] != keys[j]
  }

  // -------------------------------------------------------------- rules for one part

  predicate PermissionFine(m: Module, p: PermissionDefinition) {
    !Blank(p.code) && TrimSpace(p.owner) == m.name && HasPrefix(TrimSpace(p.code), m.name + ":")
  }

  /** The permission is left out or declared by the module itself. */
  predicate Owned(m: Module, permission: string) {
    Blank(permission) || TrimSpace(permission) in CODES(m)
  }

  predicate BackendShape(m: Module, r: BackendRoute) {
    var verb, path := TrimSpace(r.verb), TrimSpace(r.path);
    && !Blank(r.name) && verb != "" && path != "" && verb in METHODS
    && (path == "/api/v1" || HasPrefix(path, "/api/v1/"))
    && PathIn(path, "/api/v1/" + m.name)
    && !Blank(r.summary)
    && !(r.open && !Blank(r.permission))
  }

  predicate MenuShape(m: Module, e: MenuEntry) {
    var path := TrimSpace(e.path);
    path != "" && HasPrefix(path, "/") && PathIn(path, "/" + m.name)
  }

  /** The parent is left out or a menu of the module itself. */
  predicate ParentOwned(m: Module, e: MenuEntry) {
    Blank(e.parent) || TrimSpace(e.parent) in MENU_NAMES(m)
  }

  predicate RouteShape(m: Module, r: FrontendRoute) {
    var path := TrimSpace(r.path);
    !Blank(r.name) && path != "" && !Blank(r.component) && HasPrefix(path, "/") && PathIn(path, "/" + m.name)
  }

  predicate MigrationShape(s: MigrationSet) {
    !Blank(s.driver) && !Blank(s.dir)
  }

  // ------------------------------------------------------------------- the whole list

  /** What every module must satisfy by itself. */
  ghost predicate ModuleFine(m: Module) {
    && ValidName(m.name)
    && (forall p | p in m.permissions :: PermissionFine(m, p))
    && (forall e | e in m.menus :: !Blank(e.name) && MenuShape(m, e) && ParentOwned(m, e) && Owned(m, e.permission))
    && (forall r | r in m.backend :: BackendShape(m, r) && Owned(m, r.permission))
    && (forall r | r in m.routes :: RouteShape(m, r) && Owned(m, r.permission))
    && (forall s | s in m.migrations :: MigrationShape(s))
  }

  /** A menu and a route on one path show the same component. */
  ghost predicate ComponentsMatch(mods: seq<Module>) {
    forall m, n, e, r | m in mods && n in mods && e in m.menus && r in n.routes &&
      TrimSpace(e.path) == TrimSpace(r.path) :: TrimSpace(e.component) == TrimSpace(r.component)
  }

  ghost predicate Accepted(mods: seq<Module>) {
    && (forall m | m in mods :: ModuleFine(m))
    && Different(All(mods, NAMES)) && Different(All(mods, CODES)) && Different(All(mods, MENU_NAMES))
    && Different(All(mods, MENU_PATHS)) && Different(All(mods, BACKEND_NAMES))
    && Different(All(mods, BACKEND_PATTERNS)) && Different(All(mods, ROUTE_NAMES))
    && Different(All(mods, ROUTE_PATHS)) && Different(All(mods, MIGRATION_KEYS))
    && ComponentsMatch(mods)
  }

  // ---------------------------------------------------------------- consequences

  lemma NotInShorter(path: string, root: string, a: string, b: string)
    requires ValidName(b) && |a| < |b| && PathIn(path, root + "/" + b)
    ensures !PathIn(path, root + "/" + a)
  {
    var k := |root| + 1;
    assert path[k + |a|] == (root + "/" + b)[k + |a|] == b[|a|];
    assert NameRune(b[|a|]);
    assert (root + "/" + a + "/")[k + |a|] == '/';
  }

  /** Path namespaces of different modules have no path in common. */
  lemma NamespacesDisjoint(path: string, root: string, a: string, b: string)
    requires ValidName(a) && ValidName(b)
    requires PathIn(path, root + "/" + a) && PathIn(path, root + "/" + b)
    ensures a == b
  {
    if |a| < |b| {
      NotInShorter(path, root, a, b);
    } else if |b| < |a| {
      NotInShorter(path, root, b, a);
    } else {
      var k := |root| + 1;
      assert (root + "/" + a)[k..] == a && (root + "/" + b)[k..] == b;
      assert path[..k + |a|] == root + "/" + a == root + "/" + b;
    }
  }
}
