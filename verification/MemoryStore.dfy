/**
 The in-memory store. Every method is one critical section of its lock, so the
 methods are the atomic steps whose runs the models of the tables are about.
 Loops over a Go map take its entries in an arbitrary order.
 */
module MemoryStore {
  import opened Domain
  import opened Tables
  import opened Text
  import opened Paging
  import opened Sorting
  import opened KeyedTables
  import A = Accounts
  import M = MenuStore
  import L = MenuListing
  import F = MenuForest
  import MM = MenuMeaning
  import T = MenuTree
  import S = ServiceModel
  import D = SeedData

  const USER_ID := A.USER_ID
  const ROLE_ID := A.ROLE_ID

  /** The filter of `ListUsers`, on trimmed and lowered parameters. */
  predicate MatchesQuery(u: User, keyword: string, status: string) {
    (status == "" || u.status == status) &&
    (keyword == "" || Contains(ToLower(u.username + " " + u.nickname + " " + u.email), keyword))
  }

  function UserFilter(keyword: string, status: string): User -> bool {
    var k, s := ToLower(TrimSpace(keyword)), TrimSpace(status);
    u => MatchesQuery(u, k, s)
  }

  lemma AncestorStep(rows: M.Rows, c: nat, a: nat)
    ensures c !in rows ==> !M.HasAncestor(rows, c, a)
    ensures c in rows && rows[c].parentID == a ==> M.HasAncestor(rows, c, a)
    ensures c in rows && rows[c].parentID != a ==>
      (M.HasAncestor(rows, c, a) <==> M.HasAncestor(rows, rows[c].parentID, a))
  {
    if c in rows {
      var p := rows[c].parentID;
      if p == a {
        assert M.Climbs(rows, a, a, 0);
        assert M.Climbs(rows, c, a, 1);
      } else if M.HasAncestor(rows, p, a) {
        var n: nat :| n > 0 && M.Climbs(rows, p, a, n);
        assert M.Climbs(rows, c, a, n + 1);
      }
      if M.HasAncestor(rows, c, a) && p != a {
        var n: nat :| n > 0 && M.Climbs(rows, c, a, n);
        assert M.Climbs(rows, p, a, n - 1);
      }
    }
  }

  lemma {:induction false} SelfParentClimbsNowhere(rows: M.Rows, c: nat, a: nat, n: nat)
    requires c in rows && rows[c].parentID == c && c != a
    ensures !M.Climbs(rows, c, a, n)
    decreases n
  {
    if n > 0 {
      SelfParentClimbsNowhere(rows, c, a, n - 1);
    }
  }

  class Store {
    var nextUserID: nat
    var nextRoleID: nat
    var nextMenuID: nat
    var nextDictionaryID: nat
    var nextSettingID: nat
    var users: map<nat, User>
    var roles: map<nat, Role>
    var menus: map<nat, Menu>
    var dictionaries: map<nat, Dictionary>
    var settings: map<nat, Setting>

    ghost function Accounts(): A.State
      reads `nextUserID, `nextRoleID, `users, `roles
    {
      A.State(Table(nextUserID, users), Table(nextRoleID, roles))
    }

    ghost function Menus(): Table<Menu>
      reads `nextMenuID, `menus
    {
      Table(nextMenuID, menus)
    }

    ghost function Dictionaries(): Table<Dictionary>
      reads `nextDictionaryID, `dictionaries
    {
      Table(nextDictionaryID, dictionaries)
    }

    ghost function Settings(): Table<Setting>
      reads `nextSettingID, `settings
    {
      Table(nextSettingID, settings)
    }

    /** The unique keys are unique, IDs are below their counters, and the menus are a forest. */
    ghost predicate Valid()
      reads this
    {
      && A.Valid(Accounts())
      && M.Valid(Menus())
      && KeyedValid(Dictionaries(), DICTIONARY_ID, DICTIONARY_CODE)
      && KeyedValid(Settings(), SETTING_ID, SETTING_KEY)
    }

    /** `NewStore`. */
    constructor ()
      ensures Valid()
      ensures users == map[] && roles == map[] && menus == map[] && dictionaries == map[] && settings == map[]
      ensures nextUserID == nextRoleID == nextMenuID == nextDictionaryID == nextSettingID == 1
    {
      nextUserID, nextRoleID, nextMenuID, nextDictionaryID, nextSettingID := 1, 1, 1, 1, 1;
      users, roles, menus, dictionaries, settings := map[], map[], map[], map[], map[];
    }

    /** `Seed`, on a new store; `hash` is the hash of the initial password. */
    method Seed(hash: string)
      requires users == map[] && roles == map[] && menus == map[] && dictionaries == map[] && settings == map[]
      requires nextUserID == nextRoleID == nextMenuID == nextDictionaryID == nextSettingID == 1
      modifies this
      ensures Valid()
      ensures Accounts() == D.Accounts(hash) && Menus() == Table(10, D.MenuRows(9))
      ensures Dictionaries() == D.Dictionaries() && Settings() == D.Settings()
      ensures S.Sound(Accounts()) && S.HasActiveAdmin(Accounts())
    {
      SeedAccounts(hash);
      SeedMenus();
      SeedDictionaryAndSetting();
      D.AccountsSound(hash);
      D.MenusValid();
      D.KeyedTablesValid();
    }

    method SeedDictionaryAndSetting()
      requires dictionaries == map[] && settings == map[] && nextDictionaryID == nextSettingID == 1
      modifies `dictionaries, `nextDictionaryID, `settings, `nextSettingID
      ensures Dictionaries() == D.Dictionaries() && Settings() == D.Settings()
    {
      dictionaries := map[1 := Dictionary(1, "user_status", "User Status",
        [DictionaryItem("Active", STATUS_ACTIVE, 1), DictionaryItem("Disabled", STATUS_DISABLED, 2)])];
      settings := map[1 := Setting(1, "site.title", "\"GOV2\"", "Displayed application title")];
      nextDictionaryID, nextSettingID := 2, 2;
    }

    method SeedAccounts(hash: string)
      requires users == map[] && roles == map[] && nextUserID == nextRoleID == 1
      modifies `users, `nextUserID, `roles, `nextRoleID
      ensures Accounts() == D.Accounts(hash)
    {
      var adminRole := InsertRole(D.ADMIN_ROLE);
      var operatorRole := InsertRole(D.OPERATOR_ROLE);
      var admin := InsertUser(D.AdminUser(hash).(roleIDs := [adminRole.id]));
      var operator := InsertUser(D.OperatorUser(hash).(roleIDs := [operatorRole.id]));
    }

    method SeedMenus()
      requires menus == map[] && nextMenuID == 1
      modifies `menus, `nextMenuID
      ensures Menus() == Table(10, D.MenuRows(9))
    {
      for i := 0 to |D.MENUS|
        invariant nextMenuID == i + 1 && menus == D.MenuRows(i)
      {
        var menu := D.MENUS[i].(id := nextMenuID);
        nextMenuID := nextMenuID + 1;
        menus := menus[menu.id := menu];
      }
    }

    method InsertUser(user: User) returns (row: User)
      modifies `users, `nextUserID
      ensures row == user.(id := old(nextUserID))
      ensures nextUserID == old(nextUserID) + 1 && users == old(users)[row.id := row]
    {
      row := user.(id := nextUserID);
      nextUserID := nextUserID + 1;
      users := users[row.id := row];
    }

    method InsertRole(role: Role) returns (row: Role)
      modifies `roles, `nextRoleID
      ensures row == role.(id := old(nextRoleID))
      ensures nextRoleID == old(nextRoleID) + 1 && roles == old(roles)[row.id := row]
    {
      row := role.(id := nextRoleID);
      nextRoleID := nextRoleID + 1;
      roles := roles[row.id := row];
    }

    // -------------------------------------------------------------------- users

    method FindUserByUsername(username: string) returns (r: Result<User>)
      requires Valid()
      ensures match r
        case Ok(u) => u.id in users && users[u.id] == u && EqualFold(u.username, username)
        case Err(e) => e == NotFound && forall id | id in users :: !EqualFold(users[id].username, username)
    {
      var pending := users.Keys;
      while pending != {}
        invariant pending <= users.Keys
        invariant forall id | id in users && id !in pending :: !EqualFold(users[id].username, username)
        decreases |pending|
      {
        var id :| id in pending;
        if EqualFold(users[id].username, username) {
          assert USER_ID(users[id]) == id;
          return Ok(users[id]);
        }
        pending := pending - {id};
      }
      return Err(NotFound);
    }

    method GetUser(id: nat) returns (r: Result<User>)
      requires Valid()
      ensures match r
        case Ok(u) => u.id == id && u in users.Values
        case Err(e) => e == NotFound && forall k | k in users :: users[k].id != id
    {
      assert forall k | k in users :: USER_ID(users[k]) == k;
      if id !in users {
        return Err(NotFound);
      }
      return Ok(users[id]);
    }

    /** `ListUsers`: the page as `paginate` cuts it (`None` for its panic), and the count. */
    method ListUsers(keyword: string, status: string, page: int, pageSize: int)
      returns (items: Option<seq<User>>, total: nat)
      requires Valid()
      ensures var all := Select(users, UserFilter(keyword, status), nextUserID);
        var n := NormalizePage(page, pageSize);
        total == |all| && items == Paginate(all, n.0, n.1)
    {
      var n := NormalizePage(page, pageSize);
      var keep := UserFilter(keyword, status);
      var found: seq<User> := [];
      var pending := users.Keys;
      while pending != {}
        invariant Gathered(Table(nextUserID, users), USER_ID, keep, pending, found)
        decreases |pending|
      {
        var id :| id in pending;
        GatherOne(Table(nextUserID, users), USER_ID, keep, pending, found, id);
        pending := pending - {id};
        if !keep(users[id]) {
          continue;
        }
        found := found + [users[id]];
      }
      CollectedIsSelected(Table(nextUserID, users), USER_ID, keep, found);
      found := Sort(found, ByID(USER_ID));
      total := |found|;
      items := Paginate(found, n.0, n.1);
    }

    method UserTaken(candidate: User, candidateID: nat) returns (taken: bool)
      ensures taken == A.UserTaken(users, candidate, candidateID)
    {
      var pending := users.Keys;
      while pending != {}
        invariant pending <= users.Keys
        invariant forall id | id in users && id !in pending :: !A.UserConflicts(users[id], candidate, candidateID)
        decreases |pending|
      {
        var id :| id in pending;
        if A.UserConflicts(users[id], candidate, candidateID) {
          return true;
        }
        pending := pending - {id};
      }
      return false;
    }

    method CreateUser(user: User) returns (r: Result<User>)
      requires Valid()
      modifies `users, `nextUserID
      ensures Valid() && (Accounts(), r) == A.CreateUser(old(Accounts()), user)
    {
      A.CreateUserKeepsValid(Accounts(), user);
      var taken := UserTaken(user, 0);
      if taken {
        return Err(Conflict);
      }
      var row := InsertUser(user);
      return Ok(row);
    }

    method UpdateUser(id: nat, update: User) returns (r: Result<User>)
      requires Valid()
      modifies `users
      ensures Valid() && (Accounts(), r) == A.UpdateUser(old(Accounts()), id, update)
    {
      A.UpdateUserKeepsValid(Accounts(), id, update);
      if id !in users {
        return Err(NotFound);
      }
      var taken := UserTaken(update, id);
      if taken {
        return Err(Conflict);
      }
      var user := users[id];
      user := user.(username := update.username, nickname := update.nickname, email := update.email,
                    phone := update.phone, avatar := update.avatar, roleIDs := update.roleIDs);
      if update.status != "" {
        user := user.(status := update.status);
      }
      if update.passwordHash != "" {
        user := user.(passwordHash := update.passwordHash);
      }
      users := users[id := user];
      return Ok(user);
    }

    method UpdateUserStatus(id: nat, status: string) returns (r: Result<User>)
      requires Valid()
      modifies `users
      ensures Valid() && (Accounts(), r) == A.UpdateUserStatus(old(Accounts()), id, status)
      ensures id in old(users) ==>
        users == old(users)[id := old(users)[id].(status := status)] && r == Ok(users[id])
    {
      A.CallKeepsValid(Accounts(), A.CallUpdateUserStatus(id, status));
      if id !in users {
        return Err(NotFound);
      }
      users := users[id := users[id].(status := status)];
      return Ok(users[id]);
    }

    method DeleteUser(id: nat) returns (r: Result<()>)
      requires Valid()
      modifies `users
      ensures Valid() && (Accounts(), r) == A.DeleteUser(old(Accounts()), id)
    {
      A.CallKeepsValid(Accounts(), A.CallDeleteUser(id));
      if id !in users {
        return Err(NotFound);
      }
      users := users - {id};
      return Ok(());
    }

    // -------------------------------------------------------------------- roles

    method ListRoles() returns (items: seq<Role>)
      requires Valid()
      ensures items == S.RoleList(Accounts())
    {
      var found: seq<Role> := [];
      var pending := roles.Keys;
      while pending != {}
        invariant Gathered(Table(nextRoleID, roles), ROLE_ID, S.ANY_ROLE, pending, found)
        decreases |pending|
      {
        var id :| id in pending;
        GatherOne(Table(nextRoleID, roles), ROLE_ID, S.ANY_ROLE, pending, found, id);
        pending := pending - {id};
        found := found + [roles[id]];
      }
      CollectedIsSelected(Table(nextRoleID, roles), ROLE_ID, S.ANY_ROLE, found);
      items := Sort(found, ByID(ROLE_ID));
    }

    method RoleCodeTaken(ignoreID: nat, code: string) returns (taken: bool)
      requires Valid()
      ensures taken == KeyTaken(roles, A.ROLE_CODE, ignoreID, code)
    {
      var pending := roles.Keys;
      while pending != {}
        invariant pending <= roles.Keys
        invariant forall id | id in roles && id !in pending :: !(id != ignoreID && EqualFold(roles[id].code, code))
        decreases |pending|
      {
        var id :| id in pending;
        assert ROLE_ID(roles[id]) == id;
        if roles[id].id != ignoreID && EqualFold(roles[id].code, code) {
          return true;
        }
        pending := pending - {id};
      }
      return false;
    }

    method CreateRole(role: Role) returns (r: Result<Role>)
      requires Valid()
      modifies `roles, `nextRoleID
      ensures Valid() && (Accounts(), r) == A.CreateRole(old(Accounts()), role)
    {
      A.CreateRoleKeepsValid(Accounts(), role);
      var taken := RoleCodeTaken(0, role.code);
      if taken {
        return Err(Conflict);
      }
      var row := InsertRole(role);
      return Ok(row);
    }

    method UpdateRole(id: nat, update: Role) returns (r: Result<Role>)
      requires Valid()
      modifies `roles
      ensures Valid() && (Accounts(), r) == A.UpdateRole(old(Accounts()), id, update)
    {
      A.UpdateRoleKeepsValid(Accounts(), id, update);
      if id !in roles {
        return Err(NotFound);
      }
      var taken := RoleCodeTaken(id, update.code);
      if taken {
        return Err(Conflict);
      }
      assert ROLE_ID(roles[id]) == id;
      var role := roles[id].(name := update.name, code := update.code, description := update.description,
                             permissions := update.permissions);
      roles := roles[id := role];
      return Ok(role);
    }

    method DeleteRole(id: nat) returns (r: Result<()>)
      requires Valid()
      modifies `roles
      ensures Valid() && (Accounts(), r) == A.DeleteRole(old(Accounts()), id)
    {
      A.DeleteRoleKeepsValid(Accounts(), id);
      if id !in roles {
        return Err(NotFound);
      }
      var pending := users.Keys;
      while pending != {}
        invariant pending <= users.Keys
        invariant forall k | k in users && k !in pending :: id !in users[k].roleIDs
        decreases |pending|
      {
        var k :| k in pending;
        if id in users[k].roleIDs {
          return Err(Conflict);
        }
        pending := pending - {k};
      }
      roles := roles - {id};
      return Ok(());
    }

    // -------------------------------------------------------------------- menus

    /** `ListMenus`: the forest built from the menus in order of their sort values. */
    method ListMenus() returns (tree: seq<Menu>)
      requires Valid()
      ensures L.IsListing(tree, menus)
      ensures MM.SiblingsInOrder(tree) && forall m | m in F.Nodes(tree) :: MM.SiblingsInOrder(m.children)
      ensures forall m | m in F.Nodes(tree) :: m.id in menus && MM.SameFields(m, menus[m.id])
    {
      var found: seq<Menu> := [];
      var pending := menus.Keys;
      while pending != {}
        invariant Gathered(Menus(), M.MENU_ID, L.ANY_MENU, pending, found)
        decreases |pending|
      {
        var id :| id in pending;
        GatherOne(Menus(), M.MENU_ID, L.ANY_MENU, pending, found, id);
        pending := pending - {id};
        found := found + [menus[id]];
      }
      L.SortedLists(Menus(), found, L.SORTS_LOWER);
      SortOrdered(found, L.SORTS_LOWER);
      tree := T.BuildMenuTree(Sort(found, L.SORTS_LOWER));
      MM.ListingMeaning(tree, menus);
    }

    method MenuNameExists(ignoreID: nat, name: string) returns (taken: bool)
      requires Valid()
      ensures taken == KeyTaken(menus, M.MENU_NAME, ignoreID, name)
    {
      var pending := menus.Keys;
      while pending != {}
        invariant pending <= menus.Keys
        invariant forall id | id in menus && id !in pending :: !(id != ignoreID && EqualFold(menus[id].name, name))
        decreases |pending|
      {
        var id :| id in pending;
        assert M.MENU_ID(menus[id]) == id;
        if menus[id].id != ignoreID && EqualFold(menus[id].name, name) {
          return true;
        }
        pending := pending - {id};
      }
      return false;
    }

    /** `menuHasAncestorLocked`: ends because the menus are a forest, and answers exactly whether
        the second menu is a proper ancestor of the first. */
    method MenuHasAncestor(candidateID: nat, ancestorID: nat) returns (found: bool)
      requires Valid()
      ensures found == M.HasAncestor(menus, candidateID, ancestorID)
    {
      var id := candidateID;
      ghost var height: nat := 0;
      if id in menus {
        height :| M.Climbs(menus, id, 0, height);
      }
      while id != 0
        invariant id in menus ==> M.Climbs(menus, id, 0, height)
        invariant M.HasAncestor(menus, candidateID, ancestorID) <==> M.HasAncestor(menus, id, ancestorID)
        decreases height
      {
        AncestorStep(menus, id, ancestorID);
        if id !in menus {
          return false;
        }
        var menu := menus[id];
        if menu.parentID == ancestorID {
          return true;
        }
        if menu.parentID == id {
          forall n: nat ensures !M.Climbs(menus, id, ancestorID, n) {
            SelfParentClimbsNowhere(menus, id, ancestorID, n);
          }
          return false;
        }
        id := menu.parentID;
        height := height - 1;
      }
      AncestorStep(menus, 0, ancestorID);
      return false;
    }

    method CreateMenu(menu: Menu) returns (r: Result<Menu>)
      requires Valid()
      modifies `menus, `nextMenuID
      ensures Valid() && (Menus(), r) == M.Create(old(Menus()), menu)
    {
      M.CreateKeepsValid(Menus(), menu);
      var taken := MenuNameExists(0, menu.name);
      if taken {
        return Err(Conflict);
      }
      if menu.parentID != 0 && menu.parentID !in menus {
        return Err(NotFound);
      }
      var row := menu.(id := nextMenuID, children := []);
      nextMenuID := nextMenuID + 1;
      menus := menus[row.id := row];
      return Ok(row);
    }

    method UpdateMenu(id: nat, update: Menu) returns (r: Result<Menu>)
      requires Valid()
      modifies `menus
      ensures Valid() && (Menus(), r) == M.Update(old(Menus()), id, update)
    {
      M.UpdateKeepsValid(Menus(), id, update);
      if id !in menus {
        return Err(NotFound);
      }
      var taken := MenuNameExists(id, update.name);
      if taken {
        return Err(Conflict);
      }
      if update.parentID != 0 {
        if update.parentID !in menus {
          return Err(NotFound);
        }
        var cyclic := update.parentID == id;
        if !cyclic {
          cyclic := MenuHasAncestor(update.parentID, id);
        }
        if cyclic {
          return Err(Conflict);
        }
      }
      var menu := menus[id];
      menu := menu.(parentID := update.parentID, title := update.title, name := update.name, path := update.path,
                    icon := update.icon, component := update.component, permission := update.permission,
                    sort := update.sort, hidden := update.hidden);
      menus := menus[id := menu];
      return Ok(menu);
    }

    method DeleteMenu(id: nat) returns (r: Result<()>)
      requires Valid()
      modifies `menus
      ensures Valid() && (Menus(), r) == M.Delete(old(Menus()), id)
    {
      M.DeleteKeepsValid(Menus(), id);
      if id !in menus {
        return Err(NotFound);
      }
      var pending := menus.Keys;
      while pending != {}
        invariant pending <= menus.Keys
        invariant forall k | k in menus && k !in pending :: menus[k].parentID != id
        decreases |pending|
      {
        var k :| k in pending;
        if menus[k].parentID == id {
          return Err(Conflict);
        }
        pending := pending - {k};
      }
      menus := menus - {id};
      return Ok(());
    }

    // ------------------------------------------------- dictionaries and settings

    method GetDictionaryByCode(code: string) returns (r: Result<Dictionary>)
      requires Valid()
      ensures match r
        case Ok(d) => d.id in dictionaries && dictionaries[d.id] == d && EqualFold(d.code, TrimSpace(code))
        case Err(e) =>
          e == NotFound && forall id | id in dictionaries :: !EqualFold(dictionaries[id].code, TrimSpace(code))
    {
      var key := TrimSpace(code);
      var pending := dictionaries.Keys;
      while pending != {}
        invariant pending <= dictionaries.Keys
        invariant forall id | id in dictionaries && id !in pending :: !EqualFold(dictionaries[id].code, key)
        decreases |pending|
      {
        var id :| id in pending;
        if EqualFold(dictionaries[id].code, key) {
          assert DICTIONARY_ID(dictionaries[id]) == id;
          return Ok(dictionaries[id]);
        }
        pending := pending - {id};
      }
      return Err(NotFound);
    }

    method DictionaryCodeExists(ignoreID: nat, code: string) returns (taken: bool)
      requires Valid()
      ensures taken == KeyTaken(dictionaries, DICTIONARY_CODE, ignoreID, code)
    {
      var pending := dictionaries.Keys;
      while pending != {}
        invariant pending <= dictionaries.Keys
        invariant forall id | id in dictionaries && id !in pending ::
          !(id != ignoreID && EqualFold(dictionaries[id].code, code))
        decreases |pending|
      {
        var id :| id in pending;
        assert DICTIONARY_ID(dictionaries[id]) == id;
        if dictionaries[id].id != ignoreID && EqualFold(dictionaries[id].code, code) {
          return true;
        }
        pending := pending - {id};
      }
      return false;
    }

    method CreateDictionary(dictionary: Dictionary) returns (r: Result<Dictionary>)
      requires Valid()
      modifies `dictionaries, `nextDictionaryID
      ensures Valid()
      ensures (Dictionaries(), r) ==
        CreateKeyed(old(Dictionaries()), DICTIONARY_CODE, dictionary.(id := old(nextDictionaryID)))
    {
      var row := dictionary.(id := nextDictionaryID);
      CreateKeyedKeepsValid(Dictionaries(), DICTIONARY_ID, DICTIONARY_CODE, row);
      var taken := DictionaryCodeExists(0, dictionary.code);
      if taken {
        return Err(Conflict);
      }
      nextDictionaryID := nextDictionaryID + 1;
      dictionaries := dictionaries[row.id := row];
      return Ok(row);
    }

    method UpdateDictionary(id: nat, update: Dictionary) returns (r: Result<Dictionary>)
      requires Valid()
      modifies `dictionaries
      ensures Valid()
      ensures (Dictionaries(), r) == UpdateKeyed(old(Dictionaries()), DICTIONARY_CODE, id, update.(id := id))
    {
      var row := update.(id := id);
      UpdateKeyedKeepsValid(Dictionaries(), DICTIONARY_ID, DICTIONARY_CODE, id, row);
      if id !in dictionaries {
        return Err(NotFound);
      }
      var taken := DictionaryCodeExists(id, update.code);
      if taken {
        return Err(Conflict);
      }
      dictionaries := dictionaries[id := row];
      return Ok(row);
    }

    method DeleteDictionary(id: nat) returns (r: Result<()>)
      requires Valid()
      modifies `dictionaries
      ensures Valid() && (Dictionaries(), r) == DeleteKeyed(old(Dictionaries()), id)
    {
      UpdateKeyedKeepsValid(Dictionaries(), DICTIONARY_ID, DICTIONARY_CODE, id, Dictionary(id, "", "", []));
      if id !in dictionaries {
        return Err(NotFound);
      }
      dictionaries := dictionaries - {id};
      return Ok(());
    }

    method SettingKeyExists(ignoreID: nat, key: string) returns (taken: bool)
      requires Valid()
      ensures taken == KeyTaken(settings, SETTING_KEY, ignoreID, key)
    {
      var pending := settings.Keys;
      while pending != {}
        invariant pending <= settings.Keys
        invariant forall id | id in settings && id !in pending :: !(id != ignoreID && EqualFold(settings[id].key, key))
        decreases |pending|
      {
        var id :| id in pending;
        assert SETTING_ID(settings[id]) == id;
        if settings[id].id != ignoreID && EqualFold(settings[id].key, key) {
          return true;
        }
        pending := pending - {id};
      }
      return false;
    }

    method CreateSetting(setting: Setting) returns (r: Result<Setting>)
      requires Valid()
      modifies `settings, `nextSettingID
      ensures Valid()
      ensures (Settings(), r) == CreateKeyed(old(Settings()), SETTING_KEY, setting.(id := old(nextSettingID)))
    {
      var row := setting.(id := nextSettingID);
      CreateKeyedKeepsValid(Settings(), SETTING_ID, SETTING_KEY, row);
      var taken := SettingKeyExists(0, setting.key);
      if taken {
        return Err(Conflict);
      }
      nextSettingID := nextSettingID + 1;
      settings := settings[row.id := row];
      return Ok(row);
    }

    method UpdateSetting(id: nat, update: Setting) returns (r: Result<Setting>)
      requires Valid()
      modifies `settings
      ensures Valid() && (Settings(), r) == UpdateKeyed(old(Settings()), SETTING_KEY, id, update.(id := id))
    {
      var row := update.(id := id);
      UpdateKeyedKeepsValid(Settings(), SETTING_ID, SETTING_KEY, id, row);
      if id !in settings {
        return Err(NotFound);
      }
      var taken := SettingKeyExists(id, update.key);
      if taken {
        return Err(Conflict);
      }
      settings := settings[id := row];
      return Ok(row);
    }

    method DeleteSetting(id: nat) returns (r: Result<()>)
      requires Valid()
      modifies `settings
      ensures Valid() && (Settings(), r) == DeleteKeyed(old(Settings()), id)
    {
      UpdateKeyedKeepsValid(Settings(), SETTING_ID, SETTING_KEY, id, Setting(id, "", "", ""));
      if id !in settings {
        return Err(NotFound);
      }
      settings := settings - {id};
      return Ok(());
    }
  }
}
