/** The service methods on roles and menus, and the bootstrap commands, over the in-memory store. */
module SystemServices {
  import opened Domain
  import opened Tables
  import opened Text
  import opened Paging
  import opened MemoryStore
  import opened Permissions
  import opened ServiceModel
  import opened Password
  import opened Services
  import A = Accounts
  import B = Bootstrap
  import L = MenuListing
  import M = MenuStore
  import T = MenuTree

  datatype MenuInput = MenuInput(
    parentID: nat, title: string, name: string, path: string, icon: string, component: string,
    permission: string, sort: int, hidden: bool)

  /** `permissionCodeSet`. */
  function CodeSet(catalog: seq<PermissionDefinition>): set<string> {
    set d | d in catalog && TrimSpace(d.code) != "" :: TrimSpace(d.code)
  }

  /** `normalizeMenuInput`. */
  function MenuFrom(known: set<string>, input: MenuInput): Result<Menu> {
    var menu := Menu(0, input.parentID, TrimSpace(input.title), TrimSpace(input.name), TrimSpace(input.path),
                     TrimSpace(input.icon), TrimSpace(input.component), TrimSpace(input.permission),
                     input.sort, input.hidden, []);
    var fields := (if menu.title == "" then ["title"] else []) + (if menu.name == "" then ["name"] else []) +
                  (if HasPrefix(menu.path, "/") then [] else ["path"]) +
                  (if menu.permission == "" || menu.permission in known then [] else ["permission"]);
    if fields != [] then Err(Validation(fields)) else Ok(menu)
  }

  /** The service's update of a checked menu, when this is what `ListMenus` returned. */
  ghost function UpdateListed(t: Table<Menu>, tree: seq<Menu>, id: nat, menu: Menu): (Table<Menu>, Result<Menu>) {
    if menu.parentID == id || L.TreeContainsDescendant(tree, id, menu.parentID)
    then (t, Err(Validation(["parent_id"])))
    else M.Update(t, id, menu)
  }

  class SystemService {
    const store: Store
    const catalog: seq<PermissionDefinition>
    const builtIn: seq<PermissionDefinition> // `domain.SystemPermissions`

    constructor (store: Store, catalog: seq<PermissionDefinition>, builtIn: seq<PermissionDefinition>)
      ensures this.store == store && this.catalog == catalog && this.builtIn == builtIn
    {
      this.store, this.catalog, this.builtIn := store, catalog, builtIn;
    }

    /** The codes of `permissions`: an empty catalog stands for the built-in permissions. */
    function Known(): set<string> {
      CodeSet(if catalog == [] then builtIn else catalog)
    }

    /** `normalizeRoleInput`. */
    method NormalizeRoleInput(input: RoleInput) returns (r: Result<Role>)
      ensures r == RoleFrom(Known(), input)
    {
      var name, code := TrimSpace(input.name), TrimSpace(input.code);
      var permissions := CleanPermissions(input.permissions);
      var known := Known();
      var registered := true;
      for i := 0 to |input.permissions|
        invariant Grants(input.permissions[..i]) - {PERMISSION_ALL} <= known
      {
        var permission := TrimSpace(input.permissions[i]);
        GrantsStep(input.permissions[..i], input.permissions[i]);
        assert input.permissions[..i + 1] == input.permissions[..i] + [input.permissions[i]];
        if permission == "" || permission == PERMISSION_ALL {
          continue;
        }
        if permission !in known {
          assert input.permissions[i] in input.permissions;
          assert permission in Grants(input.permissions);
          registered := false;
          break;
        }
      }
      assert registered ==> input.permissions[..|input.permissions|] == input.permissions;
      assert registered <==> Grants(input.permissions) - {PERMISSION_ALL} <= known;
      var fields := (if name == "" then ["name"] else []) + (if code == "" then ["code"] else []) +
                    (if registered then [] else ["permissions"]);
      if |fields| > 0 {
        return Err(Validation(fields));
      }
      return Ok(Role(0, name, code, TrimSpace(input.description), permissions));
    }

    method CreateRole(input: RoleInput) returns (r: Result<Role>)
      requires store.Valid()
      modifies store`roles, store`nextRoleID
      ensures store.Valid()
      ensures (store.Accounts(), r) == AddRole(old(store.Accounts()), Known(), input)
    {
      var role := NormalizeRoleInput(input);
      if role.Err? {
        return role;
      }
      r := store.CreateRole(role.value);
    }

    method UpdateRole(id: nat, input: RoleInput) returns (r: Result<Role>)
      requires store.Valid()
      modifies store`roles
      ensures store.Valid()
      ensures (store.Accounts(), r) == ChangeRole(old(store.Accounts()), Known(), id, input)
    {
      var role := NormalizeRoleInput(input);
      if role.Err? {
        return role;
      }
      r := store.UpdateRole(id, role.value);
    }

    method DeleteRole(id: nat) returns (r: Result<()>)
      requires store.Valid()
      modifies store`roles
      ensures store.Valid()
      ensures (store.Accounts(), r) == A.DeleteRole(old(store.Accounts()), id)
    {
      r := store.DeleteRole(id);
    }

    method CreateMenu(input: MenuInput) returns (r: Result<Menu>)
      requires store.Valid()
      modifies store`menus, store`nextMenuID
      ensures store.Valid()
      ensures var menu := MenuFrom(Known(), input);
        (store.Menus(), r) == if menu.Err? then (old(store.Menus()), menu) else M.Create(old(store.Menus()), menu.value)
    {
      var menu := MenuFrom(Known(), input);
      if menu.Err? {
        return menu;
      }
      r := store.CreateMenu(menu.value);
    }

    /** The check on the listed tree comes before the store's own. It depends on the order in which
        the menus were listed, and so may the error; what is accepted does not. */
    method UpdateMenu(id: nat, input: MenuInput) returns (r: Result<Menu>)
      requires store.Valid()
      modifies store`menus
      ensures store.Valid()
      ensures var menu := MenuFrom(Known(), input);
        menu.Err? ==> r == menu && store.Menus() == old(store.Menus())
      ensures var menu := MenuFrom(Known(), input);
        menu.Ok? ==> exists tree | L.IsListing(tree, old(store.menus)) ::
          (store.Menus(), r) == UpdateListed(old(store.Menus()), tree, id, menu.value)
      ensures var menu := MenuFrom(Known(), input);
        menu.Ok? ==> (r.Ok? <==> M.UpdateError(old(store.menus), id, menu.value) == None)
    {
      var menu := MenuFrom(Known(), input);
      if menu.Err? {
        return menu;
      }
      var tree := store.ListMenus();
      if menu.value.parentID == id || L.TreeContainsDescendant(tree, id, menu.value.parentID) {
        RefusedByBoth(store, tree, id, menu.value);
        return Err(Validation(["parent_id"]));
      }
      r := store.UpdateMenu(id, menu.value);
    }

    method DeleteMenu(id: nat) returns (r: Result<()>)
      requires store.Valid()
      modifies store`menus
      ensures store.Valid()
      ensures (store.Menus(), r) == M.Delete(old(store.Menus()), id)
    {
      r := store.DeleteMenu(id);
    }
  }

  /** Whatever the service's check refuses, the store refuses. */
  lemma RefusedByBoth(store: Store, tree: seq<Menu>, id: nat, menu: Menu)
    requires store.Valid() && L.IsListing(tree, store.menus)
    requires menu.parentID == id || L.TreeContainsDescendant(tree, id, menu.parentID)
    ensures M.UpdateError(store.menus, id, menu).Some?
  {
    if id in store.menus {
      var items :| L.Lists(items, store.menus) && L.InSortOrder(items) && tree == T.Forest(items);
      L.ServiceRejectionImpliesStoreRejection(items, store.Menus(), id, menu);
    }
  }

  // ------------------------------------------------------------------- bootstrap

  lemma AnyUserFilter(u: User)
    ensures UserFilter("", "")(u)
  {
    TrimSpaceFixed("");
  }

  lemma HolderIsListed(store: Store, role: nat)
    requires store.Valid()
    ensures A.Assigned(store.users, role) <==>
      exists u | u in Select(store.users, UserFilter("", ""), store.nextUserID) :: role in u.roleIDs
  {
    var keep := UserFilter("", "");
    if A.Assigned(store.users, role) {
      var id :| id in store.users && role in store.users[id].roleIDs;
      AnyUserFilter(store.users[id]);
      assert A.USER_ID(store.users[id]) == id;
      SelectHas(store.users, keep, store.nextUserID, id);
    }
    if exists u | u in Select(store.users, keep, store.nextUserID) :: role in u.roleIDs {
      var u :| u in Select(store.users, keep, store.nextUserID) && role in u.roleIDs;
      var id := SelectFrom(store.users, keep, store.nextUserID, u);
    }
  }

  /** `hasAdminUser`: holders of any status count. A user ID of 0 excludes nobody. */
  method HasAdminUser(store: Store, role: nat) returns (found: bool)
    requires store.Valid() && Fits(store)
    ensures found == A.Assigned(store.users, role)
  {
    ghost var all := Select(store.users, UserFilter("", ""), store.nextUserID);
    SelectLength(store.users, UserFilter("", ""), store.nextUserID);
    HolderIsListed(store, role);
    AllPositive(store);
    var page := 1;
    while true
      invariant Searched(all, page, 0, role)
      decreases |all| - (page - 1) * MAX_PAGE_SIZE
    {
      var users, total := store.ListUsers("", "", page, MAX_PAGE_SIZE);
      SearchPage(all, page);
      found := AnyOtherHolder(users.value, 0, role);
      SearchedPage(all, page, 0, role);
      if found {
        return true;
      }
      if Wrap(page * MAX_PAGE_SIZE) >= total || |users.value| == 0 {
        return false;
      }
      page := page + 1;
    }
  }

  lemma AllPositive(store: Store)
    requires store.Valid()
    ensures forall u | u in Select(store.users, UserFilter("", ""), store.nextUserID) :: u.id != 0
  {
    var keep := UserFilter("", "");
    forall u | u in Select(store.users, keep, store.nextUserID) ensures u.id != 0 {
      var id := SelectFrom(store.users, keep, store.nextUserID, u);
      assert A.USER_ID(store.users[id]) == id;
    }
  }

  method CreateInitialAdmin(store: Store, lib: Library, input: UserInput, salt: Pbkdf2.Bytes)
    returns (r: Result<User>, ghost hash: string)
    requires store.Valid() && Fits(store) && Faithful(lib)
    modifies store`users, store`nextUserID
    ensures store.Valid()
    ensures (store.Accounts(), r) == B.CreateInitialAdmin(old(store.Accounts()), input, hash)
    ensures r.Ok? ==> Accepts(lib, hash, input.password)
  {
    hash := "";
    if !PasswordPolicy(input.password) {
      return Err(InvalidAdminInput), hash;
    }
    var roles := store.ListRoles();
    var admin := FindAdminRole(roles);
    if admin.None? {
      return Err(AdminRoleNotFound), hash;
    }
    var hasAdmin := HasAdminUser(store, admin.value);
    if hasAdmin {
      return Err(AdminAlreadyExists), hash;
    }
    var users := new UserService(store, lib);
    r, hash := users.Create(B.FirstAdminInput(input, admin.value), salt);
  }

  method ResetAdminPassword(store: Store, lib: Library, username: string, password: string, salt: Pbkdf2.Bytes)
    returns (r: Result<User>, ghost hash: string)
    requires store.Valid() && Fits(store) && Faithful(lib)
    modifies store`users
    ensures store.Valid()
    ensures (store.Accounts(), r) == B.ResetAdminPassword(old(store.Accounts()), username, password, hash)
    ensures r.Ok? ==> Accepts(lib, hash, password)
  {
    hash := "";
    var name := B.NameOrAdmin(username);
    if !PasswordPolicy(password) {
      return Err(InvalidAdminInput), hash;
    }
    var roles := store.ListRoles();
    var admin := FindAdminRole(roles);
    if admin.None? {
      return Err(AdminRoleNotFound), hash;
    }
    var user := store.FindUserByUsername(name);
    FoundIsLoginUser(store, name, user);
    if user.Err? {
      return Err(AdminUserNotFound), hash;
    }
    if admin.value !in user.value.roleIDs {
      return Err(AdminUserNotFound), hash;
    }
    var users := new UserService(store, lib);
    r, hash := users.Update(user.value.id, B.ResetInput(user.value, name, password), salt);
  }

  /** The search answers the same whatever order it takes the users in. */
  lemma FoundIsLoginUser(store: Store, name: string, found: Result<User>)
    requires store.Valid()
    requires match found
      case Ok(u) => u.id in store.users && store.users[u.id] == u && EqualFold(u.username, name)
      case Err(e) => forall id | id in store.users :: !EqualFold(store.users[id].username, name)
    ensures B.LoginUser(store.Accounts(), name) == if found.Ok? then Some(found.value.id) else None
  {
    var user := B.LoginUser(store.Accounts(), name);
    if found.Ok? {
      assert B.LogsInAs(store.Accounts(), found.value.id, name);
      A.LoginNameUnique(store.Accounts().users, found.value.id, user.value, name);
    }
  }
}
