/**
 The service methods on users and on a user's own account, over the in-memory store.

 Each method is proved to do what `ServiceModel` says of the call, when nobody
 else changes the store meanwhile.
 */
module Services {
  import opened Domain
  import opened Text
  import opened Paging
  import opened MemoryStore
  import opened ServiceModel
  import opened Password
  import A = Accounts

  // ------------------------------------------------------------------- searches

  lemma {:induction false} SelectLength<X>(rows: map<nat, X>, keep: X -> bool, n: nat)
    ensures |Select(rows, keep, n)| <= |rows|
  {
    SelectCount(rows, keep, n);
    var below := set id | id in rows && id < n;
    assert below <= rows.Keys;
    SubsetSize(below, rows.Keys);
  }

  lemma {:induction false} SubsetSize(a: set<nat>, b: set<nat>)
    requires a <= b
    ensures |a| <= |b|
  {
    if a != {} {
      var x :| x in a;
      SubsetSize(a - {x}, b - {x});
    }
  }

  lemma {:induction false} SelectCount<X>(rows: map<nat, X>, keep: X -> bool, n: nat)
    ensures |Select(rows, keep, n)| <= |set id | id in rows && id < n|
  {
    if n > 0 {
      SelectCount(rows, keep, n - 1);
      var before, now := set id | id in rows && id < n - 1, set id | id in rows && id < n;
      if n - 1 in rows {
        assert now == before + {n - 1};
      } else {
        assert now == before;
      }
    }
  }

  lemma ActiveFilter(u: User)
    ensures UserFilter("", STATUS_ACTIVE)(u) <==> Active(u)
  {
    TrimSpaceFixed("");
    TrimSpaceFixed(STATUS_ACTIVE);
  }

  /** Users fit into memory: their number and one page more are machine integers. */
  ghost predicate Fits(store: Store)
    reads store
  {
    |store.users| <= MAX_INT - MAX_PAGE_SIZE
  }

  /** The user is another active holder of the role. */
  predicate OtherHolder(u: User, userID: nat, role: nat) {
    u.id != userID && role in u.roleIDs
  }

  lemma HolderInSelection(store: Store, userID: nat, role: nat)
    requires store.Valid()
    ensures HasOtherActive(store.users, userID, role) <==>
      AnyHolder(Select(store.users, UserFilter("", STATUS_ACTIVE), store.nextUserID), userID, role)
  {
    var keep := UserFilter("", STATUS_ACTIVE);
    if HasOtherActive(store.users, userID, role) {
      var id :| id in store.users && id != userID && Active(store.users[id]) && role in store.users[id].roleIDs;
      ActiveFilter(store.users[id]);
      SelectHas(store.users, keep, store.nextUserID, id);
      assert A.USER_ID(store.users[id]) == id;
    }
    if AnyHolder(Select(store.users, keep, store.nextUserID), userID, role) {
      var u :| u in Select(store.users, keep, store.nextUserID) && OtherHolder(u, userID, role);
      var id := SelectFrom(store.users, keep, store.nextUserID, u);
      ActiveFilter(u);
      assert A.USER_ID(store.users[id]) == id;
    }
  }

  /** None of the first `page - 1` pages has a holder on it. */
  ghost predicate Searched(all: seq<User>, page: nat, userID: nat, role: nat) {
    && page >= 1 && (page - 1) * MAX_PAGE_SIZE <= |all| <= MAX_INT - MAX_PAGE_SIZE
    && forall k | 0 <= k < (page - 1) * MAX_PAGE_SIZE :: !OtherHolder(all[k], userID, role)
  }

  ghost predicate AnyHolder(all: seq<User>, userID: nat, role: nat) {
    exists u | u in all :: OtherHolder(u, userID, role)
  }

  /** `hasOtherActiveAdministrator`: the search through the pages ends and misses nobody. */
  method HasOtherActiveAdministrator(store: Store, userID: nat, role: nat) returns (found: bool)
    requires store.Valid() && Fits(store)
    ensures found == HasOtherActive(store.users, userID, role)
  {
    ghost var all := Select(store.users, UserFilter("", STATUS_ACTIVE), store.nextUserID);
    SelectLength(store.users, UserFilter("", STATUS_ACTIVE), store.nextUserID);
    HolderInSelection(store, userID, role);
    var page := 1;
    while true
      invariant Searched(all, page, userID, role)
      decreases |all| - (page - 1) * MAX_PAGE_SIZE
    {
      var users, total := store.ListUsers("", STATUS_ACTIVE, page, MAX_PAGE_SIZE);
      SearchPage(all, page);
      found := AnyOtherHolder(users.value, userID, role);
      SearchedPage(all, page, userID, role);
      if found {
        return true;
      }
      if Wrap(page * MAX_PAGE_SIZE) >= total || |users.value| == 0 {
        return false;
      }
      page := page + 1;
    }
  }

  /** The pages the search asks for are in range. */
  lemma SearchPage(all: seq<User>, page: nat)
    requires page >= 1 && (page - 1) * MAX_PAGE_SIZE <= |all| <= MAX_INT - MAX_PAGE_SIZE
    ensures Paginate(all, page, MAX_PAGE_SIZE) == Some(PageOf(all, page, MAX_PAGE_SIZE))
    ensures NormalizePage(page, MAX_PAGE_SIZE) == (page, MAX_PAGE_SIZE)
    ensures Wrap(page * MAX_PAGE_SIZE) == page * MAX_PAGE_SIZE
  {
    PaginateExactly(all, page, MAX_PAGE_SIZE);
  }

  /** What the search knows after one more page. */
  lemma SearchedPage(all: seq<User>, page: nat, userID: nat, role: nat)
    requires Searched(all, page, userID, role)
    ensures var users := PageOf(all, page, MAX_PAGE_SIZE);
      if AnyHolder(users, userID, role) then AnyHolder(all, userID, role)
      else if page * MAX_PAGE_SIZE >= |all| || users == [] then !AnyHolder(all, userID, role)
      else Searched(all, page + 1, userID, role)
  {
    var start, users := (page - 1) * MAX_PAGE_SIZE, PageOf(all, page, MAX_PAGE_SIZE);
    forall k | start <= k < Min(page * MAX_PAGE_SIZE, |all|)
      ensures OtherHolder(all[k], userID, role) ==> AnyHolder(users, userID, role)
    {
      assert users[k - start] == all[k];
    }
    if u :| u in users && OtherHolder(u, userID, role) {
      assert u in all;
    }
  }

  /** The search of one page. */
  method AnyOtherHolder(users: seq<User>, userID: nat, role: nat) returns (found: bool)
    ensures found <==> AnyHolder(users, userID, role)
  {
    for i := 0 to |users|
      invariant forall k | 0 <= k < i :: !OtherHolder(users[k], userID, role)
    {
      if users[i].id != userID && role in users[i].roleIDs {
        assert users[i] in users && OtherHolder(users[i], userID, role);
        return true;
      }
    }
    return false;
  }

  method FindAdminRole(roles: seq<Role>) returns (r: Option<nat>)
    ensures r == AdminRoleID(roles)
  {
    for i := 0 to |roles|
      invariant AdminRoleID(roles) == AdminRoleID(roles[i..])
    {
      if EqualFold(TrimSpace(roles[i].code), ADMIN) {
        return Some(roles[i].id);
      }
    }
    return None;
  }

  /** `validateRoleIDs`. */
  method ValidateRoleIDs(store: Store, roleIDs: seq<nat>) returns (r: Result<seq<nat>>)
    requires store.Valid()
    ensures r == CheckedRoleIDs(store.roles, roleIDs)
  {
    if |roleIDs| == 0 {
      return Ok([]);
    }
    var roles := store.ListRoles();
    var known: set<nat> := {};
    for i := 0 to |roles|
      invariant known == set k | 0 <= k < i :: roles[k].id
    {
      known := known + {roles[i].id};
    }
    ListedRoleIDs(store, roles, known);
    r := CheckRoleIDs(store.roles, known, roleIDs);
  }

  /** The loop of `validateRoleIDs`. */
  method CheckRoleIDs(ghost roles: map<nat, Role>, known: set<nat>, roleIDs: seq<nat>) returns (r: Result<seq<nat>>)
    requires known == roles.Keys
    ensures r == CheckedRoleIDs(roles, roleIDs)
  {
    var seen: set<nat> := {};
    var out: seq<nat> := [];
    for i := 0 to |roleIDs|
      invariant out == FirstIDs(roleIDs[..i]) && forall id :: id in seen <==> id in out
      invariant forall k | 0 <= k < i :: roleIDs[k] != 0 && roleIDs[k] in known
    {
      assert roleIDs[..i + 1][..i] == roleIDs[..i];
      var id := roleIDs[i];
      assert id in roleIDs;
      if id == 0 {
        return Err(Validation(["role_ids"]));
      }
      if id !in known {
        return Err(Validation(["role_ids"]));
      }
      if id in seen {
        continue;
      }
      seen := seen + {id};
      out := out + [id];
    }
    assert roleIDs[..|roleIDs|] == roleIDs;
    return Ok(out);
  }

  lemma ListedRoleIDs(store: Store, roles: seq<Role>, known: set<nat>)
    requires store.Valid() && roles == RoleList(store.Accounts())
    requires known == set k | 0 <= k < |roles| :: roles[k].id
    ensures known == store.roles.Keys
  {
    forall id ensures id in known <==> id in store.roles {
      if id in known {
        var k :| 0 <= k < |roles| && roles[k].id == id;
        var x := SelectFrom(store.roles, ANY_ROLE, store.nextRoleID, roles[k]);
        assert A.ROLE_ID(store.roles[x]) == x;
      }
      if id in store.roles {
        SelectHas(store.roles, ANY_ROLE, store.nextRoleID, id);
        assert A.ROLE_ID(store.roles[id]) == id;
      }
    }
  }

  // -------------------------------------------------------------- the user service

  class UserService {
    const store: Store
    const lib: Library

    constructor (store: Store, lib: Library)
      ensures this.store == store && this.lib == lib
    {
      this.store, this.lib := store, lib;
    }

    method RemovesLastActiveAdministrator(user: User, nextRoleIDs: seq<nat>, nextStatus: string) returns (r: bool)
      requires store.Valid() && Fits(store)
      ensures r == RemovesLast(store.Accounts(), user, nextRoleIDs, nextStatus)
    {
      var roles := store.ListRoles();
      var admin := FindAdminRole(roles);
      if admin.None? {
        return false;
      }
      if user.status != STATUS_ACTIVE || admin.value !in user.roleIDs {
        return false;
      }
      if nextStatus == STATUS_ACTIVE && admin.value in nextRoleIDs {
        return false;
      }
      var other := HasOtherActiveAdministrator(store, user.id, admin.value);
      return !other;
    }

    /** `Create`; `hash` is what the hashing of the password produced. */
    method Create(input: UserInput, salt: Pbkdf2.Bytes) returns (r: Result<User>, ghost hash: string)
      requires store.Valid() && Faithful(lib)
      modifies store`users, store`nextUserID
      ensures store.Valid()
      ensures (store.Accounts(), r) == ServiceModel.Create(old(store.Accounts()), input, hash)
      ensures r.Ok? ==> Accepts(lib, hash, input.password)
    {
      hash := "";
      var username := TrimSpace(input.username);
      var fields: seq<string> := [];
      if username == "" {
        fields := fields + ["username"];
      }
      if input.password == "" {
        fields := fields + ["password"];
      } else if !PasswordPolicy(input.password) {
        fields := fields + ["password"];
      }
      assert fields == (if username == "" then ["username"] else []) +
                       (if PasswordPolicy(input.password) then [] else ["password"]);
      if |fields| > 0 {
        return Err(Validation(fields)), hash;
      }
      var status := NormalStatus(input.status);
      if status.None? {
        return Err(Validation(["status"])), hash;
      }
      var roleIDs := ValidateRoleIDs(store, input.roleIDs);
      if roleIDs.Err? {
        return Err(roleIDs.error), hash;
      }
      var hashed := HashPassword(lib, input.password, salt);
      hash := hashed.value;
      HashAcceptsItsPassword(lib, hash, input.password, salt);
      r := store.CreateUser(UserFrom(input, roleIDs.value, status.value, hashed.value));
    }

    method Update(id: nat, input: UserInput, salt: Pbkdf2.Bytes) returns (r: Result<User>, ghost hash: string)
      requires store.Valid() && Fits(store) && Faithful(lib)
      modifies store`users
      ensures store.Valid()
      ensures (store.Accounts(), r) == ServiceModel.Update(old(store.Accounts()), id, input, hash)
      ensures r.Ok? && input.password != "" ==> Accepts(lib, hash, input.password)
    {
      hash := "";
      var username := TrimSpace(input.username);
      if username == "" {
        return Err(Validation(["username"])), hash;
      }
      var status := NormalStatus(input.status);
      if status.None? {
        return Err(Validation(["status"])), hash;
      }
      var roleIDs := ValidateRoleIDs(store, input.roleIDs);
      if roleIDs.Err? {
        return Err(roleIDs.error), hash;
      }
      var existing := store.GetUser(id);
      if existing.Err? {
        return Err(existing.error), hash;
      }
      var removesLast := RemovesLastActiveAdministrator(existing.value, roleIDs.value, status.value);
      if removesLast {
        return Err(LastAdministrator), hash;
      }
      var update := UserFrom(input, roleIDs.value, status.value, "");
      if input.password != "" {
        if !PasswordPolicy(input.password) {
          return Err(Validation(["password"])), hash;
        }
        var hashed := HashPassword(lib, input.password, salt);
        hash := hashed.value;
        HashAcceptsItsPassword(lib, hash, input.password, salt);
        update := update.(passwordHash := hashed.value);
      }
      r := store.UpdateUser(id, update);
    }

    method SetStatus(id: nat, status: string) returns (r: Result<User>)
      requires store.Valid() && Fits(store)
      modifies store`users
      ensures store.Valid()
      ensures (store.Accounts(), r) == ServiceModel.SetStatus(old(store.Accounts()), id, status)
      ensures r.Ok? ==> id in old(store.users)
      ensures r.Ok? ==> store.users == old(store.users)[id := old(store.users)[id].(status := TrimSpace(status))]
    {
      var status := TrimSpace(status);
      if status != STATUS_ACTIVE && status != STATUS_DISABLED {
        return Err(Validation(["status"]));
      }
      var existing := store.GetUser(id);
      if existing.Err? {
        return Err(existing.error);
      }
      var removesLast := RemovesLastActiveAdministrator(existing.value, existing.value.roleIDs, status);
      if removesLast {
        return Err(LastAdministrator);
      }
      r := store.UpdateUserStatus(id, status);
    }

    method Delete(id: nat) returns (r: Result<()>)
      requires store.Valid() && Fits(store)
      modifies store`users
      ensures store.Valid()
      ensures (store.Accounts(), r) == ServiceModel.Delete(old(store.Accounts()), id)
    {
      var existing := store.GetUser(id);
      if existing.Err? {
        return Err(existing.error);
      }
      var removesLast := RemovesLastActiveAdministrator(existing.value, [], STATUS_DISABLED);
      if removesLast {
        return Err(LastAdministrator);
      }
      r := store.DeleteUser(id);
    }
  }

  // -------------------------------------------------------------- the auth service

  class AuthService {
    const store: Store
    const lib: Library

    constructor (store: Store, lib: Library)
      ensures this.store == store && this.lib == lib
    {
      this.store, this.lib := store, lib;
    }

    method UpdateProfile(userID: nat, input: ProfileInput) returns (r: Result<User>)
      requires store.Valid()
      modifies store`users
      ensures store.Valid()
      ensures (store.Accounts(), r) == ServiceModel.UpdateProfile(old(store.Accounts()), userID, input)
    {
      var user := store.GetUser(userID);
      if user.Err? {
        return Err(user.error);
      }
      if user.value.status != STATUS_ACTIVE {
        return Err(DisabledUser);
      }
      assert A.USER_ID(store.users[userID]) == userID;
      r := store.UpdateUser(user.value.id, WithProfile(user.value, input));
    }

    method ChangePassword(userID: nat, current: string, next: string, salt: Pbkdf2.Bytes)
      returns (r: Result<()>, ghost hash: string)
      requires store.Valid() && Faithful(lib)
      modifies store`users
      ensures store.Valid()
      ensures var verified :=
          userID in old(store.users) && Accepts(lib, old(store.users)[userID].passwordHash, current);
        (store.Accounts(), r) ==
        ServiceModel.ChangePassword(old(store.Accounts()), userID, current, next, verified, hash)
      ensures r.Ok? ==> Accepts(lib, hash, next)
    {
      hash := "";
      var fields: seq<string> := [];
      if current == "" {
        fields := fields + ["current_password"];
      }
      if next == "" {
        fields := fields + ["new_password"];
      } else if !PasswordPolicy(next) {
        fields := fields + ["new_password"];
      }
      assert fields == PasswordFields(current, next);
      if |fields| > 0 {
        return Err(Validation(fields)), hash;
      }
      var user := store.GetUser(userID);
      if user.Err? {
        return Err(user.error), hash;
      }
      if user.value.status != STATUS_ACTIVE {
        return Err(DisabledUser), hash;
      }
      var verified := VerifyPassword(lib, current, user.value.passwordHash);
      if !verified {
        return Err(InvalidCredentials), hash;
      }
      var hashed := HashPassword(lib, next, salt);
      hash := hashed.value;
      HashAcceptsItsPassword(lib, hash, next, salt);
      assert A.USER_ID(store.users[userID]) == userID;
      var updated := store.UpdateUser(user.value.id, user.value.(passwordHash := hashed.value));
      r := if updated.Ok? then Ok(()) else Err(updated.error);
    }
  }
}
