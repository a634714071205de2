/**
 The user and role tables of the store: what each store operation does to them,
 and the uniqueness every interleaving of them keeps.
 */
module Accounts {
  import opened Domain
  import opened Tables
  import opened Text

  datatype State = State(users: Table<User>, roles: Table<Role>)

  const USER_ID := (u: User) => u.id
  const ROLE_ID := (r: Role) => r.id
  const ROLE_CODE := (r: Role) => r.code

  // ---------------------------------------------------------------------- users

  /** `userConflicts`. */
  predicate UserConflicts(existing: User, candidate: User, candidateID: nat) {
    if existing.id == candidateID then false
    else if EqualFold(existing.username, candidate.username) then true
    else
      var email := TrimSpace(candidate.email);
      if email != "" && EqualFold(TrimSpace(existing.email), email) then true
      else
        var phone := TrimSpace(candidate.phone);
        phone != "" && TrimSpace(existing.phone) == phone
  }

  /** Two users share a login name, a nonempty email or a nonempty phone number. */
  predicate Clash(a: User, b: User) {
    || EqualFold(a.username, b.username)
    || (TrimSpace(a.email) != "" && EqualFold(TrimSpace(a.email), TrimSpace(b.email)))
    || (TrimSpace(a.phone) != "" && TrimSpace(a.phone) == TrimSpace(b.phone))
  }

  ghost predicate UsersDistinct(rows: map<nat, User>) {
    forall i, j | i in rows && j in rows && i != j :: !Clash(rows[i], rows[j])
  }

  ghost predicate UserTaken(rows: map<nat, User>, candidate: User, candidateID: nat) {
    exists id | id in rows :: UserConflicts(rows[id], candidate, candidateID)
  }

  /** The stored user after an update: empty status and empty hash leave the old ones. */
  function UpdatedUser(user: User, update: User): User {
    update.(
      id := user.id,
      status := if update.status != "" then update.status else user.status,
      passwordHash := if update.passwordHash != "" then update.passwordHash else user.passwordHash)
  }

  ghost function CreateUser(s: State, user: User): (State, Result<User>) {
    if UserTaken(s.users.rows, user, 0) then (s, Err(Conflict))
    else
      var row := user.(id := s.users.next);
      (s.(users := Table(s.users.next + 1, s.users.rows[s.users.next := row])), Ok(row))
  }

  ghost function UpdateUser(s: State, id: nat, update: User): (State, Result<User>) {
    if id !in s.users.rows then (s, Err(NotFound))
    else if UserTaken(s.users.rows, update, id) then (s, Err(Conflict))
    else
      var row := UpdatedUser(s.users.rows[id], update);
      (s.(users := s.users.(rows := s.users.rows[id := row])), Ok(row))
  }

  function UpdateUserStatus(s: State, id: nat, status: string): (State, Result<User>) {
    if id !in s.users.rows then (s, Err(NotFound))
    else
      var row := s.users.rows[id].(status := status);
      (s.(users := s.users.(rows := s.users.rows[id := row])), Ok(row))
  }

  function DeleteUser(s: State, id: nat): (State, Result<()>) {
    if id !in s.users.rows then (s, Err(NotFound))
    else (s.(users := s.users.(rows := s.users.rows - {id})), Ok(()))
  }

  // ---------------------------------------------------------------------- roles

  ghost function CreateRole(s: State, role: Role): (State, Result<Role>) {
    if KeyTaken(s.roles.rows, ROLE_CODE, 0, role.code) then (s, Err(Conflict))
    else
      var row := role.(id := s.roles.next);
      (s.(roles := Table(s.roles.next + 1, s.roles.rows[s.roles.next := row])), Ok(row))
  }

  ghost function UpdateRole(s: State, id: nat, update: Role): (State, Result<Role>) {
    if id !in s.roles.rows then (s, Err(NotFound))
    else if KeyTaken(s.roles.rows, ROLE_CODE, id, update.code) then (s, Err(Conflict))
    else
      var row := update.(id := id);
      (s.(roles := s.roles.(rows := s.roles.rows[id := row])), Ok(row))
  }

  /** Some user is assigned the role. */
  ghost predicate Assigned(users: map<nat, User>, role: nat) {
    exists id | id in users :: role in users[id].roleIDs
  }

  ghost function DeleteRole(s: State, id: nat): (State, Result<()>) {
    if id !in s.roles.rows then (s, Err(NotFound))
    else if Assigned(s.users.rows, id) then (s, Err(Conflict))
    else (s.(roles := s.roles.(rows := s.roles.rows - {id})), Ok(()))
  }

  // ------------------------------------------------------- what every store call keeps

  ghost predicate UsersValid(t: Table<User>) {
    t.next > 0 && Numbered(t, USER_ID) && UsersDistinct(t.rows)
  }

  ghost predicate RolesValid(t: Table<Role>) {
    t.next > 0 && Numbered(t, ROLE_ID) && UniqueKeys(t.rows, ROLE_CODE)
  }

  /** IDs are positive, below the counter and equal to their keys; login names, nonempty emails,
      nonempty phone numbers and role codes are pairwise different under the code's comparisons. */
  ghost predicate Valid(s: State) {
    UsersValid(s.users) && RolesValid(s.roles)
  }

  lemma FoldedLength(a: string, b: string)
    requires EqualFold(a, b)
    ensures |a| == |b|
  {
    assert |Fold(a)| == |Fold(b)|;
  }

  /** The conflict check against a candidate is the symmetric clash. */
  lemma ConflictIsClash(existing: User, candidate: User, id: nat)
    ensures UserConflicts(existing, candidate, id) <==> existing.id != id && Clash(existing, candidate)
  {
    var a, b := TrimSpace(existing.email), TrimSpace(candidate.email);
    if EqualFold(a, b) {
      FoldedLength(a, b);
    }
  }

  lemma ClashSymmetric(a: User, b: User)
    ensures Clash(a, b) <==> Clash(b, a)
  {
    var x, y := TrimSpace(a.email), TrimSpace(b.email);
    if EqualFold(x, y) {
      FoldedLength(x, y);
    }
  }

  /** Writing a user who clashes with nobody else keeps users distinct. */
  lemma WriteKeepsUsers(t: Table<User>, id: nat, row: User)
    requires Numbered(t, USER_ID) && UsersDistinct(t.rows) && !UserTaken(t.rows, row, id)
    ensures UsersDistinct(t.rows[id := row])
  {
    forall k | k in t.rows && k != id ensures !Clash(t.rows[k], row) && !Clash(row, t.rows[k]) {
      assert !UserConflicts(t.rows[k], row, id);
      ConflictIsClash(t.rows[k], row, id);
      ClashSymmetric(t.rows[k], row);
      assert USER_ID(t.rows[k]) == k;
    }
  }

  /** Whether a candidate is taken depends on its name, email and phone only. */
  lemma TakenDependsOnKeys(rows: map<nat, User>, a: User, b: User, id: nat)
    requires a.username == b.username && a.email == b.email && a.phone == b.phone
    ensures UserTaken(rows, a, id) <==> UserTaken(rows, b, id)
  {
    forall k | k in rows ensures UserConflicts(rows[k], a, id) <==> UserConflicts(rows[k], b, id) {
    }
  }

  lemma NewUserNotTaken(t: Table<User>, user: User)
    requires UsersValid(t) && !UserTaken(t.rows, user, 0)
    ensures !UserTaken(t.rows, user.(id := t.next), t.next)
  {
    forall k | k in t.rows ensures !UserConflicts(t.rows[k], user.(id := t.next), t.next) {
      assert USER_ID(t.rows[k]) == k;
      assert !UserConflicts(t.rows[k], user, 0);
      ConflictIsClash(t.rows[k], user, 0);
      ConflictIsClash(t.rows[k], user.(id := t.next), t.next);
      assert Clash(t.rows[k], user.(id := t.next)) == Clash(t.rows[k], user);
    }
  }

  datatype Call =
    | CallCreateUser(user: User)
    | CallUpdateUser(id: nat, user: User)
    | CallUpdateUserStatus(id: nat, status: string)
    | CallDeleteUser(id: nat)
    | CallCreateRole(role: Role)
    | CallUpdateRole(id: nat, role: Role)
    | CallDeleteRole(id: nat)

  ghost function After(s: State, call: Call): State {
    match call
    case CallCreateUser(user) => CreateUser(s, user).0
    case CallUpdateUser(id, user) => UpdateUser(s, id, user).0
    case CallUpdateUserStatus(id, status) => UpdateUserStatus(s, id, status).0
    case CallDeleteUser(id) => DeleteUser(s, id).0
    case CallCreateRole(role) => CreateRole(s, role).0
    case CallUpdateRole(id, role) => UpdateRole(s, id, role).0
    case CallDeleteRole(id) => DeleteRole(s, id).0
  }

  ghost function AfterAll(s: State, calls: seq<Call>): State
    decreases |calls|
  {
    if calls == [] then s else After(AfterAll(s, calls[..|calls| - 1]), calls[|calls| - 1])
  }

  lemma CreateUserKeepsValid(s: State, user: User)
    requires Valid(s)
    ensures Valid(CreateUser(s, user).0)
  {
    if !UserTaken(s.users.rows, user, 0) {
      var row := user.(id := s.users.next);
      NewUserNotTaken(s.users, user);
      WriteKeepsUsers(s.users, s.users.next, row);
      WriteKeepsNumbers(s.users, USER_ID, row);
    }
  }

  lemma UpdateUserKeepsValid(s: State, id: nat, update: User)
    requires Valid(s)
    ensures Valid(UpdateUser(s, id, update).0)
  {
    if id in s.users.rows && !UserTaken(s.users.rows, update, id) {
      var row := UpdatedUser(s.users.rows[id], update);
      TakenDependsOnKeys(s.users.rows, update, row, id);
      WriteKeepsUsers(s.users, id, row);
    }
  }

  lemma RewriteKeepsUsers(t: Table<User>, id: nat, row: User)
    requires UsersValid(t) && id in t.rows && row.id == id
    requires var u := t.rows[id]; row.username == u.username && row.email == u.email && row.phone == u.phone
    ensures UsersValid(t.(rows := t.rows[id := row]))
  {
    var rows' := t.rows[id := row];
    forall i, j | i in rows' && j in rows' && i != j ensures !Clash(rows'[i], rows'[j]) {
      assert Clash(rows'[i], rows'[j]) == Clash(t.rows[i], t.rows[j]);
    }
  }

  lemma CreateRoleKeepsValid(s: State, role: Role)
    requires Valid(s)
    ensures Valid(CreateRole(s, role).0)
  {
    var t := s.roles;
    if !KeyTaken(t.rows, ROLE_CODE, 0, role.code) {
      var row := role.(id := t.next);
      WriteKeepsKeys(t.rows, ROLE_CODE, t.next, row);
      WriteKeepsNumbers(t, ROLE_ID, row);
    }
  }

  lemma UpdateRoleKeepsValid(s: State, id: nat, role: Role)
    requires Valid(s)
    ensures Valid(UpdateRole(s, id, role).0)
  {
    var t := s.roles;
    if id in t.rows && !KeyTaken(t.rows, ROLE_CODE, id, role.code) {
      WriteKeepsKeys(t.rows, ROLE_CODE, id, role.(id := id));
    }
  }

  lemma DeleteRoleKeepsValid(s: State, id: nat)
    requires Valid(s)
    ensures Valid(DeleteRole(s, id).0)
  {
  }

  lemma CallKeepsValid(s: State, call: Call)
    requires Valid(s)
    ensures Valid(After(s, call))
  {
    match call
    case CallCreateUser(user) => CreateUserKeepsValid(s, user);
    case CallUpdateUser(id, user) => UpdateUserKeepsValid(s, id, user);
    case CallUpdateUserStatus(id, status) =>
      if id in s.users.rows {
        assert USER_ID(s.users.rows[id]) == id;
        RewriteKeepsUsers(s.users, id, s.users.rows[id].(status := status));
      }
    case CallDeleteUser(id) =>
    case CallCreateRole(role) => CreateRoleKeepsValid(s, role);
    case CallUpdateRole(id, role) => UpdateRoleKeepsValid(s, id, role);
    case CallDeleteRole(id) => DeleteRoleKeepsValid(s, id);
  }

  /** Every run of store calls, in whatever order the services issue them, keeps the tables
      valid. */
  lemma {:induction false} EveryRunKeepsValid(s: State, calls: seq<Call>)
    requires Valid(s)
    ensures Valid(AfterAll(s, calls))
    decreases |calls|
  {
    if calls != [] {
      EveryRunKeepsValid(s, calls[..|calls| - 1]);
      CallKeepsValid(AfterAll(s, calls[..|calls| - 1]), calls[|calls| - 1]);
    }
  }

  lemma CallNeverReuses(s: State, call: Call)
    ensures NeverReuses(s.users, After(s, call).users) && NeverReuses(s.roles, After(s, call).roles)
  {
  }

  /** No run gives an ID out twice. */
  lemma {:induction false} NoIDIsReused(s: State, calls: seq<Call>)
    ensures NeverReuses(s.users, AfterAll(s, calls).users) && NeverReuses(s.roles, AfterAll(s, calls).roles)
    decreases |calls|
  {
    if calls != [] {
      NoIDIsReused(s, calls[..|calls| - 1]);
      CallNeverReuses(AfterAll(s, calls[..|calls| - 1]), calls[|calls| - 1]);
    }
  }

  /** In a valid table a login name names at most one user, whatever order a search takes. */
  lemma LoginNameUnique(t: Table<User>, i: nat, j: nat, username: string)
    requires UsersValid(t) && i in t.rows && j in t.rows
    requires EqualFold(t.rows[i].username, username) && EqualFold(t.rows[j].username, username)
    ensures i == j
  {
    assert i != j ==> !Clash(t.rows[i], t.rows[j]);
  }
}
