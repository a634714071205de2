/**
 The two bootstrap commands: making the first administrator, and resetting an
 administrator's password.
 */
module Bootstrap {
  import opened Domain
  import opened Text
  import opened Accounts
  import opened ServiceModel
  import opened LastAdministrator

  function NameOrAdmin(username: string): (name: string)
    ensures name != "" && Trimmed(name)
  {
    TrimSpaceTrims(username);
    if TrimSpace(username) == "" then ADMIN else TrimSpace(username)
  }

  function FirstAdminInput(input: UserInput, role: nat): UserInput {
    UserInput(NameOrAdmin(input.username), input.password, TrimSpace(input.nickname), TrimSpace(input.email),
              TrimSpace(input.phone), TrimSpace(input.avatar), [role], STATUS_ACTIVE)
  }

  /** `CreateInitialAdmin`, without the audit entry. */
  ghost function CreateInitialAdmin(s: State, input: UserInput, hash: string): (State, Result<User>) {
    var admin := AdminRoleID(RoleList(s));
    if !PasswordPolicy(input.password) then (s, Err(InvalidAdminInput))
    else if admin.None? then (s, Err(AdminRoleNotFound))
    else if Assigned(s.users.rows, admin.value) then (s, Err(AdminAlreadyExists))
    else Create(s, FirstAdminInput(input, admin.value), hash)
  }

  lemma FirstAdminCandidate(roles: map<nat, Role>, input: UserInput, role: nat, hash: string)
    requires role in roles && role != 0
    ensures var c := NewUser(roles, FirstAdminInput(input, role), hash);
      c.Ok? ==> c.value.roleIDs == [role] && c.value.status == STATUS_ACTIVE
  {
    var ids := [role];
    assert ids[..0] == [];
    FirstIDsFixed(ids);
    assert TrimSpace(STATUS_ACTIVE) == STATUS_ACTIVE;
  }

  lemma StoredAdmin(s: State, user: Result<User>, role: nat)
    requires StoreNew(s, user).1.Ok?
    requires role in s.roles.rows && AdminCode(s.roles.rows[role].code)
    requires user.value.roleIDs == [role] && user.value.status == STATUS_ACTIVE
    ensures HasActiveAdmin(StoreNew(s, user).0)
  {
    var s' := StoreNew(s, user).0;
    assert role in s'.users.rows[s.users.next].roleIDs;
    assert IsActiveAdmin(s', s.users.next);
  }

  /** When it returns a user there is an active administrator. */
  lemma CreateInitialAdminEstablishes(s: State, input: UserInput, hash: string)
    requires Sound(s)
    ensures CreateInitialAdmin(s, input, hash).1.Ok? ==> HasActiveAdmin(CreateInitialAdmin(s, input, hash).0)
    ensures Sound(CreateInitialAdmin(s, input, hash).0)
  {
    var admin := AdminRoleID(RoleList(s));
    if admin.Some? {
      var role := admin.value;
      var c := NewUser(s.roles.rows, FirstAdminInput(input, role), hash);
      AdminRoleMeaning(s, role);
      assert ROLE_ID(s.roles.rows[role]) == role;
      FirstAdminCandidate(s.roles.rows, input, role, hash);
      NewUserSound(s.roles.rows, FirstAdminInput(input, role), hash);
      StoreNewKeepsSound(s, c);
      if StoreNew(s, c).1.Ok? {
        StoredAdmin(s, c, role);
      }
    }
  }

  /** It makes no second administrator: while there is one, it refuses. */
  lemma CreateInitialAdminOnce(s: State, input: UserInput, hash: string)
    requires Sound(s) && HasActiveAdmin(s)
    ensures CreateInitialAdmin(s, input, hash).1.Err? && CreateInitialAdmin(s, input, hash).0 == s
  {
    var user: nat :| IsActiveAdmin(s, user);
    var role :| role in s.users.rows[user].roleIDs && role in s.roles.rows && AdminCode(s.roles.rows[role].code);
    AdminRoleMeaning(s, role);
    assert Assigned(s.users.rows, role);
  }

  // -------------------------------------------------------------- password reset

  ghost predicate LogsInAs(s: State, id: nat, name: string) {
    id in s.users.rows && EqualFold(s.users.rows[id].username, name)
  }

  /** `FindUserByUsername`: in a valid table there is at most one. */
  ghost function LoginUser(s: State, name: string): (r: Option<nat>)
    ensures r.Some? ==> LogsInAs(s, r.value, name)
    ensures r.None? ==> forall id: nat :: !LogsInAs(s, id, name)
  {
    if exists id: nat :: LogsInAs(s, id, name) then
      var id: nat :| LogsInAs(s, id, name);
      Some(id)
    else None
  }

  function ResetInput(u: User, name: string, password: string): UserInput {
    UserInput(name, password, u.nickname, u.email, u.phone, u.avatar, u.roleIDs, u.status)
  }

  /** `ResetAdminPassword`, without the audit entry. */
  ghost function ResetAdminPassword(s: State, username: string, password: string, hash: string): (State, Result<User>) {
    var name := NameOrAdmin(username);
    var admin := AdminRoleID(RoleList(s));
    var user := LoginUser(s, name);
    if !PasswordPolicy(password) then (s, Err(InvalidAdminInput))
    else if admin.None? then (s, Err(AdminRoleNotFound))
    else if user.None? then (s, Err(AdminUserNotFound))
    else if admin.value !in s.users.rows[user.value].roleIDs then (s, Err(AdminUserNotFound))
    else Update(s, user.value, ResetInput(s.users.rows[user.value], name, password), hash)
  }

  /** The update a reset issues passes the input checks with roles and status as stored. */
  lemma ResetCandidate(s: State, id: nat, name: string, password: string, hash: string)
    requires Sound(s) && id in s.users.rows && name != "" && Trimmed(name) && password != ""
    ensures var u := s.users.rows[id];
      ChangedUser(s.roles.rows, ResetInput(u, name, password), hash) ==
      Ok(UserFrom(ResetInput(u, name, password), u.roleIDs, u.status, hash))
  {
    var u := s.users.rows[id];
    assert UserSound(u, s.roles.rows);
    StoredStatusIsNormal(u, s.roles.rows);
    StoredRoleIDsPass(u, s.roles.rows);
    TrimSpaceFixed(name);
  }

  lemma StoredStatusIsNormal(u: User, roles: map<nat, Role>)
    requires UserSound(u, roles)
    ensures NormalStatus(u.status) == Some(u.status)
  {
    TrimSpaceFixed(STATUS_ACTIVE);
    TrimSpaceFixed(STATUS_DISABLED);
  }

  lemma StoredRoleIDsPass(u: User, roles: map<nat, Role>)
    requires UserSound(u, roles) && 0 !in roles
    ensures CheckedRoleIDs(roles, u.roleIDs) == Ok(u.roleIDs)
  {
    FirstIDsFixed(u.roleIDs);
  }

  lemma ClashFollowsKeys(a: User, b: User, c: User)
    requires EqualFold(b.username, c.username)
    requires TrimSpace(b.email) == TrimSpace(c.email) && TrimSpace(b.phone) == TrimSpace(c.phone)
    ensures Clash(a, b) <==> Clash(a, c)
  {
  }

  /** A user may be stored again under another casing of the login name. */
  lemma OwnKeysNotTaken(s: State, id: nat, row: User)
    requires Accounts.Valid(s) && id in s.users.rows
    requires EqualFold(s.users.rows[id].username, row.username)
    requires TrimSpace(s.users.rows[id].email) == TrimSpace(row.email)
    requires TrimSpace(s.users.rows[id].phone) == TrimSpace(row.phone)
    ensures !UserTaken(s.users.rows, row, id)
  {
    forall k | k in s.users.rows ensures !UserConflicts(s.users.rows[k], row, id) {
      ConflictIsClash(s.users.rows[k], row, id);
      ClashFollowsKeys(s.users.rows[k], s.users.rows[id], row);
      assert USER_ID(s.users.rows[k]) == k;
    }
  }

  lemma FromTrimsOnce(u: User, name: string, password: string, hash: string)
    requires Trimmed(name)
    ensures var row := UserFrom(ResetInput(u, name, password), u.roleIDs, u.status, hash);
      row.username == name && TrimSpace(row.email) == TrimSpace(u.email) &&
      TrimSpace(row.phone) == TrimSpace(u.phone) && row.roleIDs == u.roleIDs && row.status == u.status &&
      row.passwordHash == hash
  {
    TrimSpaceFixed(name);
    TrimSpaceTwice(u.email);
    TrimSpaceTwice(u.phone);
  }

  lemma StoreChangedSucceeds(s: State, id: nat, row: User)
    requires id in s.users.rows && s.users.rows[id].id == id
    requires row.roleIDs == s.users.rows[id].roleIDs && row.status == s.users.rows[id].status
    requires !UserTaken(s.users.rows, row, id)
    ensures StoreChanged(s, id, Ok(row), false) ==
      (WithUser(s, id, UpdatedUser(s.users.rows[id], row)), Ok(UpdatedUser(s.users.rows[id], row)))
  {
  }

  /** What a reset that reaches its update does. */
  lemma ResetWrites(s: State, id: nat, name: string, password: string, hash: string)
    requires Sound(s) && LogsInAs(s, id, name) && name != "" && Trimmed(name) && PasswordPolicy(password)
    ensures var u := s.users.rows[id];
      var row := UpdatedUser(u, UserFrom(ResetInput(u, name, password), u.roleIDs, u.status, hash));
      Update(s, id, ResetInput(u, name, password), hash) == (WithUser(s, id, row), Ok(row)) &&
      row.roleIDs == u.roleIDs && row.status == u.status && (hash != "" ==> row.passwordHash == hash)
  {
    var u := s.users.rows[id];
    var row := UserFrom(ResetInput(u, name, password), u.roleIDs, u.status, hash);
    ResetCandidate(s, id, name, password, hash);
    FromTrimsOnce(u, name, password, hash);
    OwnKeysNotTaken(s, id, row);
    assert USER_ID(u) == id;
    StoreChangedSucceeds(s, id, row);
  }

  /** A reset succeeds exactly when the password is acceptable and the name belongs to a holder
      of the admin role. */
  lemma ResetExactly(s: State, username: string, password: string, hash: string)
    requires Sound(s)
    ensures ResetAdminPassword(s, username, password, hash).1.Ok? <==>
      PasswordPolicy(password) &&
      exists id: nat, role: nat :: LogsInAs(s, id, NameOrAdmin(username)) && role in s.users.rows[id].roleIDs &&
        role in s.roles.rows && AdminCode(s.roles.rows[role].code)
  {
    var name := NameOrAdmin(username);
    var user := LoginUser(s, name);
    if user.Some? && PasswordPolicy(password) {
      ResetWrites(s, user.value, name, password, hash);
    }
    var admin := AdminRoleID(RoleList(s));
    if admin.Some? {
      AdminRoleMeaning(s, admin.value);
    }
    if exists id: nat, role: nat :: LogsInAs(s, id, name) && role in s.users.rows[id].roleIDs &&
        role in s.roles.rows && AdminCode(s.roles.rows[role].code) {
      var id: nat, role: nat :| LogsInAs(s, id, name) && role in s.users.rows[id].roleIDs &&
        role in s.roles.rows && AdminCode(s.roles.rows[role].code);
      AdminRoleMeaning(s, role);
      LoginNameUnique(s.users, id, user.value, name);
    }
  }

  /** After a successful reset the named user is stored with the new hash. */
  lemma ResetStoresHash(s: State, username: string, password: string, hash: string)
    requires Sound(s) && hash != ""
    requires ResetAdminPassword(s, username, password, hash).1.Ok?
    ensures var (s', r) := ResetAdminPassword(s, username, password, hash);
      LogsInAs(s, r.value.id, NameOrAdmin(username)) && r.value.id in s'.users.rows &&
      s'.users.rows[r.value.id].passwordHash == hash
  {
    var user := LoginUser(s, NameOrAdmin(username));
    ResetWrites(s, user.value, NameOrAdmin(username), password, hash);
    assert USER_ID(s.users.rows[user.value]) == user.value;
  }

  /** Only users who log in under the name changed, and nobody's roles or status. */
  ghost predicate OnlyTheNamedChanged(s: State, s': State, name: string) {
    s'.roles == s.roles && s'.users.rows.Keys == s.users.rows.Keys &&
    forall k | k in s.users.rows ::
      && s'.users.rows[k].roleIDs == s.users.rows[k].roleIDs
      && s'.users.rows[k].status == s.users.rows[k].status
      && (s'.users.rows[k] == s.users.rows[k] || LogsInAs(s, k, name))
  }

  lemma RewriteChangesTheNamed(s: State, id: nat, row: User, name: string)
    requires LogsInAs(s, id, name)
    requires row.roleIDs == s.users.rows[id].roleIDs && row.status == s.users.rows[id].status
    ensures OnlyTheNamedChanged(s, WithUser(s, id, row), name)
  {
  }

  lemma ResetUpdateKeeps(s: State, id: nat, name: string, password: string, hash: string)
    requires Sound(s) && LogsInAs(s, id, name) && name != "" && Trimmed(name) && PasswordPolicy(password)
    ensures OnlyTheNamedChanged(s, Update(s, id, ResetInput(s.users.rows[id], name, password), hash).0, name)
  {
    var u := s.users.rows[id];
    ResetWrites(s, id, name, password, hash);
    RewriteChangesTheNamed(s, id, Update(s, id, ResetInput(u, name, password), hash).1.value, name);
  }

  /** A reset leaves the roles, the set of users, and every user's role IDs and status as they
      are, and touches the named user only. */
  lemma ResetKeepsRolesAndStatus(s: State, username: string, password: string, hash: string)
    requires Sound(s)
    ensures OnlyTheNamedChanged(s, ResetAdminPassword(s, username, password, hash).0, NameOrAdmin(username))
  {
    var user := LoginUser(s, NameOrAdmin(username));
    if user.Some? && PasswordPolicy(password) {
      ResetUpdateKeeps(s, user.value, NameOrAdmin(username), password, hash);
    }
  }
}
