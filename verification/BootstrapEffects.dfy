/**
 What the two bootstrap commands answer and write, field by field.
 */
module BootstrapEffects {
  import opened Domain
  import opened Text
  import opened Accounts
  import opened ServiceModel
  import opened ServiceEffects
  import LA = LastAdministrator
  import B = Bootstrap

  /** The trimmed name, or "admin" for a blank one. */
  ghost function NameGiven(username: string): string {
    if Blank(username) then "admin" else TrimSpace(username)
  }

  lemma NameMeaning(username: string)
    ensures B.NameOrAdmin(username) == NameGiven(username)
    ensures !Blank(NameGiven(username)) && TrimSpace(NameGiven(username)) == NameGiven(username)
  {
    BlankMeaning(username);
    TrimSpaceFixed(B.NameOrAdmin(username));
    BlankMeaning(B.NameOrAdmin(username));
  }

  ghost predicate IsAdminRole(s: State, role: nat) {
    role in s.roles.rows && EqualFold(TrimSpace(s.roles.rows[role].code), "admin")
  }

  ghost predicate HasAdminRole(s: State) {
    exists role: nat :: IsAdminRole(s, role)
  }

  ghost predicate SomebodyIsAdmin(s: State) {
    exists user | user in s.users.rows :: NamesAdmin(s, s.users.rows[user].roleIDs)
  }

  lemma AdminRoleConditions(s: State)
    requires Sound(s)
    ensures var admin := AdminRoleID(RoleList(s));
      && (admin.Some? <==> HasAdminRole(s))
      && (admin.Some? ==> IsAdminRole(s, admin.value) && admin.value != 0)
  {
    var admin := AdminRoleID(RoleList(s));
    if admin.Some? {
      LA.AdminRoleMeaning(s, admin.value);
      assert ROLE_ID(s.roles.rows[admin.value]) == admin.value;
      assert IsAdminRole(s, admin.value);
    }
    if HasAdminRole(s) {
      var role: nat :| IsAdminRole(s, role);
      LA.AdminRoleMeaning(s, role);
    }
  }

  lemma AssignedMeaning(s: State)
    requires Sound(s) && AdminRoleID(RoleList(s)).Some?
    ensures Assigned(s.users.rows, AdminRoleID(RoleList(s)).value) <==> SomebodyIsAdmin(s)
  {
    forall user | user in s.users.rows {
      NamesAdminMeaning(s, s.users.rows[user].roleIDs);
    }
  }

  /** The first administrator: the given name and trimmed fields, the role coded admin alone, active. */
  ghost predicate IsFirstAdmin(s: State, u: User, input: UserInput, hash: string) {
    && u.id == s.users.next && u.username == NameGiven(input.username)
    && u.nickname == TrimSpace(input.nickname) && u.email == TrimSpace(input.email)
    && u.phone == TrimSpace(input.phone) && u.avatar == TrimSpace(input.avatar)
    && u.passwordHash == hash && u.status == "active"
    && |u.roleIDs| == 1 && IsAdminRole(s, u.roleIDs[0])
  }

  lemma FirstAdminInputPasses(s: State, input: UserInput, role: nat)
    requires IsAdminRole(s, role) && role != 0 && !WeakPassword(input.password)
    ensures var i := B.FirstAdminInput(input, role);
      InvalidFields(i) == [] && !UnknownStatus(i.status) && !UnknownRole(s, i.roleIDs)
  {
    NameMeaning(input.username);
    TrimSpaceFixed("active");
  }

  lemma FirstAdminShows(s: State, u: User, input: UserInput, role: nat, hash: string)
    requires IsAdminRole(s, role) && HasInput(u, B.FirstAdminInput(input, role))
    requires u.id == s.users.next && u.passwordHash == hash
    ensures IsFirstAdmin(s, u, input, hash)
  {
    NameMeaning(input.username);
    TrimSpaceTwice(input.nickname);
    TrimSpaceTwice(input.email);
    TrimSpaceTwice(input.phone);
    TrimSpaceTwice(input.avatar);
    TrimSpaceFixed("active");
    OneID(u.roleIDs, role);
  }

  lemma OneID(out: seq<nat>, id: nat)
    requires ListsOnce(out, [id])
    ensures out == [id]
  {
    assert id in [id];
    assert out[0] in out && out[|out| - 1] in out;
    assert out[0] == out[|out| - 1];
  }

  /** `CreateInitialAdmin`: the error, or a new user who is the first administrator. */
  lemma CreateInitialAdminEffect(s: State, input: UserInput, hash: string)
    requires Sound(s)
    ensures var (s', r) := B.CreateInitialAdmin(s, input, hash);
      if WeakPassword(input.password) then r == Err(InvalidAdminInput) && s' == s
      else if !HasAdminRole(s) then r == Err(AdminRoleNotFound) && s' == s
      else if SomebodyIsAdmin(s) then r == Err(AdminAlreadyExists) && s' == s
      else if InUse(s, 0, NameGiven(input.username), input.email, input.phone) then r == Err(Conflict) && s' == s
      else
        UserAdded(s, s') && r == Ok(s'.users.rows[s.users.next]) &&
        IsFirstAdmin(s, s'.users.rows[s.users.next], input, hash)
  {
    PolicyMeaning(input.password);
    AdminRoleConditions(s);
    if HasAdminRole(s) {
      AssignedMeaning(s);
    }
    if !WeakPassword(input.password) && HasAdminRole(s) && !SomebodyIsAdmin(s) {
      var role := AdminRoleID(RoleList(s)).value;
      var i := B.FirstAdminInput(input, role);
      FirstAdminInputPasses(s, input, role);
      CreateEffect(s, i, hash);
      NameMeaning(input.username);
      TrimmedInUse(s, 0, NameGiven(input.username), input.email, input.phone);
      var (s', r) := Create(s, i, hash);
      if r.Ok? {
        FirstAdminShows(s, s'.users.rows[s.users.next], input, role, hash);
      }
    }
  }

  // -------------------------------------------------------------------- password reset

  ghost predicate HasLogin(s: State, id: nat, name: string) {
    id in s.users.rows && EqualFold(s.users.rows[id].username, name)
  }

  /** The user after a reset: the given name, the new hash, and the other text fields trimmed. */
  ghost predicate IsReset(u: User, was: User, name: string, hash: string) {
    && u.id == was.id && u.username == name && u.passwordHash == hash
    && u.nickname == TrimSpace(was.nickname) && u.email == TrimSpace(was.email)
    && u.phone == TrimSpace(was.phone) && u.avatar == TrimSpace(was.avatar)
    && u.roleIDs == was.roleIDs && u.status == was.status
  }

  ghost predicate ResetDone(s: State, s': State, r: Result<User>, id: nat, name: string, hash: string) {
    && OnlyUserChanged(s, s', id) && r == Ok(s'.users.rows[id])
    && IsReset(s'.users.rows[id], s.users.rows[id], name, hash)
  }

  lemma ResetWritesFields(s: State, id: nat, name: string, password: string, hash: string)
    requires Sound(s) && HasLogin(s, id, name) && name != "" && Trimmed(name) && PasswordPolicy(password) && hash != ""
    ensures var (s', r) := Update(s, id, B.ResetInput(s.users.rows[id], name, password), hash);
      ResetDone(s, s', r, id, name, hash)
  {
    var u := s.users.rows[id];
    B.ResetWrites(s, id, name, password, hash);
    B.FromTrimsOnce(u, name, password, hash);
    assert UserSound(u, s.roles.rows);
  }

  /** The user logs in under the name and holds the role coded admin. */
  ghost predicate IsAdminLogin(s: State, id: nat, name: string) {
    HasLogin(s, id, name) && NamesAdmin(s, s.users.rows[id].roleIDs)
  }

  lemma LoginMeaning(s: State, name: string)
    requires Sound(s)
    ensures forall id: nat :: B.LoginUser(s, name) == Some(id) <==> HasLogin(s, id, name)
  {
    var user := B.LoginUser(s, name);
    forall id: nat ensures user == Some(id) <==> HasLogin(s, id, name) {
      assert B.LogsInAs(s, id, name) <==> HasLogin(s, id, name);
      if HasLogin(s, id, name) && user.Some? {
        LoginNameUnique(s.users, id, user.value, name);
      }
    }
  }

  /** The user a reset goes on with, if there is one. */
  ghost function AdminToReset(s: State, name: string): Option<nat> {
    var admin, user := AdminRoleID(RoleList(s)), B.LoginUser(s, name);
    if admin.Some? && user.Some? && admin.value in s.users.rows[user.value].roleIDs then user else None
  }

  lemma AdminToResetMeaning(s: State, name: string)
    requires Sound(s)
    ensures forall id: nat :: AdminToReset(s, name) == Some(id) <==> IsAdminLogin(s, id, name)
  {
    LoginMeaning(s, name);
    forall id: nat ensures AdminToReset(s, name) == Some(id) <==> IsAdminLogin(s, id, name) {
      if HasLogin(s, id, name) {
        NamesAdminMeaning(s, s.users.rows[id].roleIDs);
      }
    }
  }

  lemma ResetStepwise(s: State, username: string, password: string, hash: string)
    requires PasswordPolicy(password)
    ensures var user := AdminToReset(s, B.NameOrAdmin(username));
      B.ResetAdminPassword(s, username, password, hash) ==
      if AdminRoleID(RoleList(s)).None? then (s, Err(AdminRoleNotFound))
      else if user.None? then (s, Err(AdminUserNotFound))
      else Update(s, user.value, B.ResetInput(s.users.rows[user.value], B.NameOrAdmin(username), password), hash)
  {
  }

  /** `ResetAdminPassword`: the error, or the one holder of the admin role with that login name
      has the new hash and nobody else changed. */
  lemma ResetAdminPasswordEffect(s: State, username: string, password: string, hash: string)
    requires Sound(s) && hash != ""
    ensures var (s', r) := B.ResetAdminPassword(s, username, password, hash);
      if WeakPassword(password) then r == Err(InvalidAdminInput) && s' == s
      else if !HasAdminRole(s) then r == Err(AdminRoleNotFound) && s' == s
      else if !exists id: nat :: IsAdminLogin(s, id, NameGiven(username)) then r == Err(AdminUserNotFound) && s' == s
      else exists id: nat | IsAdminLogin(s, id, NameGiven(username)) ::
        ResetDone(s, s', r, id, NameGiven(username), hash)
  {
    PolicyMeaning(password);
    if !WeakPassword(password) {
      var name := NameGiven(username);
      NameMeaning(username);
      AdminRoleConditions(s);
      AdminToResetMeaning(s, name);
      ResetStepwise(s, username, password, hash);
      var user := AdminToReset(s, name);
      if user.Some? {
        ResetWritesFields(s, user.value, name, password, hash);
        assert IsAdminLogin(s, user.value, name);
      }
    }
  }
}
