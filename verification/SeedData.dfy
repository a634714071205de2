/** What `Seed` puts into a new store, and that it is a good start for every run. */
module SeedData {
  import opened Domain
  import opened Tables
  import opened Text
  import A = Accounts
  import K = KeyedTables
  import M = MenuStore
  import S = ServiceModel

  const ADMIN_ROLE := Role(1, "Administrator", "admin", "Full system access", [PERMISSION_ALL])

  const OPERATOR_ROLE := Role(2, "Operator", "operator", "Daily system operations",
    ["dashboard:view", "system:user:list", "system:role:list", "system:menu:list", "system:module:list",
     "system:dictionary:list", "system:setting:list", "system:audit:list"])

  function AdminUser(hash: string): User {
    User(1, "admin", "GOV2 Admin", "admin@gov2.local", "", "", hash, [1], STATUS_ACTIVE)
  }

  function OperatorUser(hash: string): User {
    User(2, "operator", "GOV2 Operator", "operator@gov2.local", "", "", hash, [2], STATUS_ACTIVE)
  }

  function Accounts(hash: string): A.State {
    A.State(Table(3, map[1 := AdminUser(hash), 2 := OperatorUser(hash)]),
            Table(3, map[1 := ADMIN_ROLE, 2 := OPERATOR_ROLE]))
  }

  function SeedMenu(name: string, title: string, parentID: nat, path: string, icon: string, component: string,
                    permission: string, sort: int): Menu {
    Menu(0, parentID, title, name, path, icon, component, permission, sort, false, [])
  }

  const MENUS := [
    SeedMenu("dashboard", "Dashboard", 0, "/dashboard", "layout-dashboard", "DashboardView", "dashboard:view", 10),
    SeedMenu("system", "System", 0, "/system", "settings", "Layout", "", 20),
    SeedMenu("system-users", "Users", 2, "/system/users", "users", "UsersView", "system:user:list", 21),
    SeedMenu("system-roles", "Roles", 2, "/system/roles", "shield", "RolesView", "system:role:list", 22),
    SeedMenu("system-menus", "Menus", 2, "/system/menus", "menu", "MenusView", "system:menu:list", 23),
    SeedMenu("system-modules", "Modules", 2, "/system/modules", "boxes", "ModulesView", "system:module:list", 24),
    SeedMenu("system-dictionaries", "Dictionaries", 2, "/system/dictionaries", "book", "DictionariesView",
             "system:dictionary:list", 25),
    SeedMenu("system-settings", "Settings", 2, "/system/settings", "sliders-horizontal", "SettingsView",
             "system:setting:list", 26),
    SeedMenu("system-audit", "Audit Logs", 2, "/system/audit", "history", "AuditLogsView", "system:audit:list", 27)]

  /** The first `n` seeded menus, numbered from 1. */
  function MenuRows(n: nat): M.Rows
    requires n <= |MENUS|
  {
    if n == 0 then map[] else MenuRows(n - 1)[n := MENUS[n - 1].(id := n)]
  }

  function Dictionaries(): Table<Dictionary> {
    Table(2, map[1 := Dictionary(1, "user_status", "User Status",
      [DictionaryItem("Active", STATUS_ACTIVE, 1), DictionaryItem("Disabled", STATUS_DISABLED, 2)])])
  }

  function Settings(): Table<Setting> {
    Table(2, map[1 := Setting(1, "site.title", "\"GOV2\"", "Displayed application title")])
  }

  // ------------------------------------------------------------------ it is valid

  lemma DifferentLength(a: string, b: string)
    requires |a| != |b|
    ensures !EqualFold(a, b)
  {
    assert |Fold(a)| != |Fold(b)|;
  }

  lemma DifferentAt(a: string, b: string, i: nat)
    requires i < |a| && i < |b| && FoldRune(a[i]) != FoldRune(b[i])
    ensures !EqualFold(a, b)
  {
    assert Fold(a)[i] != Fold(b)[i];
  }

  /** The seeded accounts are sound and have an active administrator. */
  lemma AccountsSound(hash: string)
    ensures S.Sound(Accounts(hash)) && S.HasActiveAdmin(Accounts(hash))
  {
    UsersFine(hash);
    RolesFine(hash);
    UsersSound(hash);
    CodesTrimmed(hash);
    FirstUserIsAdmin(hash);
  }

  lemma UsersSound(hash: string)
    ensures forall id | id in Accounts(hash).users.rows ::
      S.UserSound(Accounts(hash).users.rows[id], Accounts(hash).roles.rows)
  {
  }

  lemma CodesTrimmed(hash: string)
    ensures forall id | id in Accounts(hash).roles.rows :: Trimmed(Accounts(hash).roles.rows[id].code)
  {
    TrimSpaceFixed("admin");
    TrimSpaceFixed("operator");
  }

  lemma RolesFine(hash: string)
    ensures A.RolesValid(Accounts(hash).roles)
  {
    DifferentLength("admin", "operator");
    DifferentLength("operator", "admin");
  }

  lemma FirstUserIsAdmin(hash: string)
    ensures S.IsActiveAdmin(Accounts(hash), 1)
  {
    var s := Accounts(hash);
    TrimSpaceFixed("admin");
    assert S.AdminCode(s.roles.rows[1].code);
    assert 1 in s.users.rows[1].roleIDs;
  }

  lemma UsersFine(hash: string)
    ensures A.UsersValid(Accounts(hash).users)
  {
    var t := Accounts(hash).users;
    TrimSpaceFixed("admin@gov2.local");
    TrimSpaceFixed("operator@gov2.local");
    TrimSpaceFixed("");
    DifferentLength("admin", "operator");
    DifferentLength("admin@gov2.local", "operator@gov2.local");
    assert !A.Clash(t.rows[1], t.rows[2]);
    A.ClashSymmetric(t.rows[1], t.rows[2]);
  }

  lemma MenuNamesDiffer(i: nat, j: nat)
    requires i < j < |MENUS|
    ensures !EqualFold(MENUS[i].name, MENUS[j].name)
    ensures !EqualFold(MENUS[j].name, MENUS[i].name)
  {
    if |MENUS[i].name| != |MENUS[j].name| {
      DifferentLength(MENUS[i].name, MENUS[j].name);
    } else {
      DifferentAt(MENUS[i].name, MENUS[j].name, 7);
    }
  }

  lemma {:induction false} MenuRowsAre(n: nat, id: nat)
    requires n <= |MENUS|
    ensures id in MenuRows(n) <==> 1 <= id <= n
    ensures id in MenuRows(n) ==> MenuRows(n)[id] == MENUS[id - 1].(id := id)
  {
    if n > 0 {
      var before := MenuRows(n - 1);
      MenuRowsAre(n - 1, id);
      assert MenuRows(n) == before[n := MENUS[n - 1].(id := n)];
      if id == n {
        assert MenuRows(n)[id] == MENUS[id - 1].(id := id);
      }
    }
  }

  lemma SeedParents(i: nat)
    requires i < |MENUS|
    ensures MENUS[i].parentID == 0 || MENUS[i].parentID == 2
    ensures MENUS[1].parentID == 0
  {
  }

  lemma MenusGrounded()
    ensures M.Grounded(MenuRows(9))
  {
    var rows := MenuRows(9);
    forall id | id in rows ensures exists n: nat :: M.Climbs(rows, id, 0, n) {
      MenuRowsAre(9, id);
      MenuRowsAre(9, 2);
      SeedParents(id - 1);
      assert M.Climbs(rows, 0, 0, 0);
      assert M.Climbs(rows, 2, 0, 1);
      assert M.Climbs(rows, id, 0, 1) || M.Climbs(rows, id, 0, 2);
    }
  }

  lemma MenuNamesUnique()
    ensures UniqueKeys(MenuRows(9), M.MENU_NAME)
  {
    var rows := MenuRows(9);
    forall i, j | i in rows && j in rows && i != j ensures !EqualFold(M.MENU_NAME(rows[i]), M.MENU_NAME(rows[j])) {
      MenuRowsAre(9, i);
      MenuRowsAre(9, j);
      if i < j {
        MenuNamesDiffer(i - 1, j - 1);
      } else {
        MenuNamesDiffer(j - 1, i - 1);
      }
    }
  }

  /** The seeded menus are a forest of two levels with unique names. */
  lemma MenusValid()
    ensures M.Valid(Table(10, MenuRows(9)))
  {
    MenusGrounded();
    MenuNamesUnique();
    forall id | id in MenuRows(9) ensures 0 < id < 10 && M.MENU_ID(MenuRows(9)[id]) == id {
      MenuRowsAre(9, id);
    }
  }

  lemma KeyedTablesValid()
    ensures K.KeyedValid(Dictionaries(), K.DICTIONARY_ID, K.DICTIONARY_CODE)
    ensures K.KeyedValid(Settings(), K.SETTING_ID, K.SETTING_KEY)
  {
  }

  // ------------------------------------------------------- runs from a seeded store

  /** From a seeded store, every run of menu calls keeps a finite forest: a nonzero parent is
      stored, and nobody is his own ancestor. */
  lemma SeededMenusStayAForest(calls: seq<M.Call>, id: nat)
    ensures var t := M.AfterAll(Table(10, MenuRows(9)), calls);
      M.Valid(t) &&
      (id in t.rows ==> (t.rows[id].parentID == 0 || t.rows[id].parentID in t.rows) && !M.HasAncestor(t.rows, id, id))
  {
    var t := M.AfterAll(Table(10, MenuRows(9)), calls);
    MenusValid();
    M.EveryRunKeepsForest(Table(10, MenuRows(9)), calls);
    if id in t.rows {
      M.NoCycle(t, id);
      M.ParentStored(t, id);
    }
  }
}
