/**
 What every service call keeps: sound references, and an active administrator.
 */
module LastAdministrator {
  import opened Domain
  import opened Text
  import opened Paging
  import opened Accounts
  import opened ServiceModel

  // --------------------------------------------------------------- the admin role

  lemma {:induction false} AdminRoleFound(roles: seq<Role>)
    ensures match AdminRoleID(roles)
      case Some(id) => exists r | r in roles :: AdminCode(r.code) && r.id == id
      case None => forall r | r in roles :: !AdminCode(r.code)
  {
    if roles != [] {
      AdminRoleFound(roles[1..]);
      assert roles[0] in roles;
      assert forall r | r in roles[1..] :: r in roles;
    }
  }

  /** The role found is the only stored role coded admin. */
  lemma AdminRoleMeaning(s: State, id: nat)
    requires Sound(s)
    ensures AdminRoleID(RoleList(s)) == Some(id) <==> id in s.roles.rows && AdminCode(s.roles.rows[id].code)
  {
    AdminRoleFound(RoleList(s));
    if AdminRoleID(RoleList(s)) == Some(id) {
      var r :| r in RoleList(s) && AdminCode(r.code) && r.id == id;
      var k := SelectFrom(s.roles.rows, ANY_ROLE, s.roles.next, r);
      assert ROLE_ID(s.roles.rows[k]) == k;
    }
    if id in s.roles.rows && AdminCode(s.roles.rows[id].code) {
      assert ROLE_ID(s.roles.rows[id]) == id;
      SelectHas(s.roles.rows, ANY_ROLE, s.roles.next, id);
      var a := AdminRoleID(RoleList(s)).value;
      var r :| r in RoleList(s) && AdminCode(r.code) && r.id == a;
      var k := SelectFrom(s.roles.rows, ANY_ROLE, s.roles.next, r);
      assert ROLE_ID(s.roles.rows[k]) == k;
      AdminCodeUnique(s, id, k);
    }
  }

  lemma AdminCodeUnique(s: State, i: nat, j: nat)
    requires Sound(s) && i in s.roles.rows && j in s.roles.rows
    requires AdminCode(s.roles.rows[i].code) && AdminCode(s.roles.rows[j].code)
    ensures i == j
  {
    assert i != j ==> !EqualFold(ROLE_CODE(s.roles.rows[i]), ROLE_CODE(s.roles.rows[j]));
  }

  // ---------------------------------------------------------- effects on the tables

  function WithUser(s: State, id: nat, row: User): State {
    s.(users := s.users.(rows := s.users.rows[id := row]))
  }

  /** A user who stays an active admin witnesses the invariant. */
  lemma StillAdmin(s: State, s': State, user: nat)
    requires IsActiveAdmin(s, user) && user in s'.users.rows
    requires Active(s'.users.rows[user])
    requires forall r | r in s.users.rows[user].roleIDs :: r in s'.users.rows[user].roleIDs
    requires forall r | r in s.roles.rows && r in s.users.rows[user].roleIDs ::
      r in s'.roles.rows && (AdminCode(s.roles.rows[r].code) ==> AdminCode(s'.roles.rows[r].code))
    ensures HasActiveAdmin(s')
  {
    var role :| role in s.users.rows[user].roleIDs && role in s.roles.rows && AdminCode(s.roles.rows[role].code);
    assert IsActiveAdmin(s', user);
  }

  /** Rewriting or removing one user keeps an active admin unless the guard refuses it. */
  lemma GuardedWriteKeepsAdmin(s: State, id: nat, nextRoleIDs: seq<nat>, nextStatus: string, s': State)
    requires Sound(s) && HasActiveAdmin(s) && id in s.users.rows
    requires !RemovesLast(s, s.users.rows[id], nextRoleIDs, nextStatus)
    requires s'.roles == s.roles
    requires forall k | k in s.users.rows && k != id :: k in s'.users.rows && s'.users.rows[k] == s.users.rows[k]
    requires nextStatus == STATUS_ACTIVE ==>
      id in s'.users.rows && s'.users.rows[id].roleIDs == nextRoleIDs && s'.users.rows[id].status == nextStatus
    ensures HasActiveAdmin(s')
  {
    var user: nat :| IsActiveAdmin(s, user);
    if user != id {
      StillAdmin(s, s', user);
    } else {
      var role :| role in s.users.rows[user].roleIDs && role in s.roles.rows && AdminCode(s.roles.rows[role].code);
      AdminRoleMeaning(s, role);
      assert USER_ID(s.users.rows[id]) == id;
      if nextStatus == STATUS_ACTIVE && role in nextRoleIDs {
        assert IsActiveAdmin(s', id);
      } else {
        var other :| other in s.users.rows && other != id && Active(s.users.rows[other]) &&
          role in s.users.rows[other].roleIDs;
        assert IsActiveAdmin(s', other);
      }
    }
  }

  // ------------------------------------------------------------------ each call

  lemma NextIsFree(s: State)
    requires Accounts.Valid(s)
    ensures s.users.next !in s.users.rows && s.roles.next !in s.roles.rows
  {
  }

  lemma StoreNewKeepsAdmin(s: State, user: Result<User>)
    requires s.users.next !in s.users.rows && HasActiveAdmin(s)
    ensures HasActiveAdmin(StoreNew(s, user).0)
  {
    var admin: nat :| IsActiveAdmin(s, admin);
    StillAdmin(s, StoreNew(s, user).0, admin);
  }

  /** A candidate that passed the checks has one of the two statuses and sound role IDs. */
  lemma CandidateSound(roles: map<nat, Role>, input: UserInput, hash: string)
    ensures var c := Candidate(roles, input, hash); c.Ok? ==> UserSound(c.value, roles)
  {
    NormalStatusMeaning(input.status);
    FromKeepsChecked(input, FirstIDs(input.roleIDs), NormalStatus(input.status), hash);
  }

  lemma NormalStatusMeaning(status: string)
    ensures var t := NormalStatus(status); t.Some? ==> t.value == STATUS_ACTIVE || t.value == STATUS_DISABLED
  {
  }

  lemma FromKeepsChecked(input: UserInput, roleIDs: seq<nat>, status: Option<string>, hash: string)
    ensures status.Some? ==>
      UserFrom(input, roleIDs, status.value, hash).roleIDs == roleIDs &&
      UserFrom(input, roleIDs, status.value, hash).status == status.value
  {
  }

  lemma NewUserSound(roles: map<nat, Role>, input: UserInput, hash: string)
    ensures var c := NewUser(roles, input, hash); c.Ok? ==> UserSound(c.value, roles)
  {
    CandidateSound(roles, input, hash);
  }

  lemma ChangedUserSound(roles: map<nat, Role>, input: UserInput, hash: string)
    ensures var c := ChangedUser(roles, input, hash); c.Ok? ==> UserSound(c.value, roles)
  {
    CandidateSound(roles, input, if input.password == "" then "" else hash);
  }

  lemma StoreChangedKeepsAdmin(s: State, id: nat, user: Result<User>, badPassword: bool)
    requires Sound(s) && HasActiveAdmin(s) && (user.Ok? ==> UserSound(user.value, s.roles.rows))
    ensures HasActiveAdmin(StoreChanged(s, id, user, badPassword).0)
  {
    var (s', r) := StoreChanged(s, id, user, badPassword);
    if r.Ok? {
      GuardedWriteKeepsAdmin(s, id, user.value.roleIDs, user.value.status, s');
    }
  }

  lemma SetStatusKeepsAdmin(s: State, id: nat, status: string)
    requires Sound(s) && HasActiveAdmin(s)
    ensures HasActiveAdmin(SetStatus(s, id, status).0)
  {
    var (s', r) := SetStatus(s, id, status);
    if r.Ok? {
      GuardedWriteKeepsAdmin(s, id, s.users.rows[id].roleIDs, TrimSpace(status), s');
    }
  }

  lemma DeleteKeepsAdmin(s: State, id: nat)
    requires Sound(s) && HasActiveAdmin(s)
    ensures HasActiveAdmin(Delete(s, id).0)
  {
    var (s', r) := Delete(s, id);
    if r.Ok? {
      GuardedWriteKeepsAdmin(s, id, [], STATUS_DISABLED, s');
    }
  }

  /** A rewrite that leaves roles and status of the user alone. */
  lemma SameRolesKeepsAdmin(s: State, id: nat, update: User)
    requires HasActiveAdmin(s) && id in s.users.rows
    requires update.roleIDs == s.users.rows[id].roleIDs && update.status == s.users.rows[id].status
    ensures HasActiveAdmin(UpdateUser(s, id, update).0)
  {
    var user: nat :| IsActiveAdmin(s, user);
    StillAdmin(s, UpdateUser(s, id, update).0, user);
  }

  lemma ProfileKeepsAdmin(s: State, id: nat, profile: ProfileInput)
    requires Sound(s) && HasActiveAdmin(s)
    ensures HasActiveAdmin(UpdateProfile(s, id, profile).0)
  {
    if id in s.users.rows {
      SameRolesKeepsAdmin(s, id, WithProfile(s.users.rows[id], profile));
    }
  }

  lemma PasswordKeepsAdmin(s: State, id: nat, current: string, next: string, verified: bool, hash: string)
    requires Sound(s) && HasActiveAdmin(s)
    ensures HasActiveAdmin(ChangePassword(s, id, current, next, verified, hash).0)
  {
    if id in s.users.rows {
      SameRolesKeepsAdmin(s, id, s.users.rows[id].(passwordHash := hash));
    }
  }

  lemma StoreNewRoleKeepsAdmin(s: State, role: Result<Role>)
    requires s.roles.next !in s.roles.rows && HasActiveAdmin(s)
    ensures HasActiveAdmin(StoreNewRole(s, role).0)
  {
    var user: nat :| IsActiveAdmin(s, user);
    StillAdmin(s, StoreNewRole(s, role).0, user);
  }

  lemma AddRoleKeepsAdmin(s: State, known: set<string>, input: RoleInput)
    requires Sound(s) && HasActiveAdmin(s)
    ensures HasActiveAdmin(AddRole(s, known, input).0)
  {
    NextIsFree(s);
    StoreNewRoleKeepsAdmin(s, RoleFrom(known, input));
  }

  lemma DeleteRoleKeepsAdmin(s: State, id: nat)
    requires Sound(s) && HasActiveAdmin(s)
    ensures HasActiveAdmin(DeleteRole(s, id).0)
  {
    var user: nat :| IsActiveAdmin(s, user);
    StillAdmin(s, DeleteRole(s, id).0, user);
  }

  /** The role update leaves the admin role coded admin. */
  ghost predicate KeepsAdminCode(s: State, id: nat, input: RoleInput) {
    id in s.roles.rows && AdminCode(s.roles.rows[id].code) ==> AdminCode(input.code)
  }

  /** A checked role input has the code of the input, trimmed. */
  lemma RoleFromCode(known: set<string>, input: RoleInput)
    ensures var r := RoleFrom(known, input);
      r.Ok? ==> Trimmed(r.value.code) && AdminCode(r.value.code) == AdminCode(input.code)
  {
    TrimSpaceTrims(input.code);
    TrimSpaceTwice(input.code);
  }

  lemma StoreChangedRoleKeepsAdmin(s: State, id: nat, role: Result<Role>)
    requires HasActiveAdmin(s)
    requires role.Ok? && id in s.roles.rows && AdminCode(s.roles.rows[id].code) ==> AdminCode(role.value.code)
    ensures HasActiveAdmin(StoreChangedRole(s, id, role).0)
  {
    var user: nat :| IsActiveAdmin(s, user);
    StillAdmin(s, StoreChangedRole(s, id, role).0, user);
  }

  lemma ChangeRoleKeepsAdmin(s: State, known: set<string>, id: nat, input: RoleInput)
    requires HasActiveAdmin(s) && KeepsAdminCode(s, id, input)
    ensures HasActiveAdmin(ChangeRole(s, known, id, input).0)
  {
    RoleFromCode(known, input);
    StoreChangedRoleKeepsAdmin(s, id, RoleFrom(known, input));
  }

  /** Without a role coded admin nobody is an administrator. */
  lemma NoAdminRole(s: State)
    requires forall role | role in s.roles.rows :: !AdminCode(s.roles.rows[role].code)
    ensures !HasActiveAdmin(s)
  {
  }

  lemma RenamingLosesAdmin(s: State, id: nat, role: Result<Role>)
    requires Sound(s) && StoreChangedRole(s, id, role).1.Ok?
    requires id in s.roles.rows && AdminCode(s.roles.rows[id].code) && !AdminCode(role.value.code)
    ensures !HasActiveAdmin(StoreChangedRole(s, id, role).0)
  {
    var s' := StoreChangedRole(s, id, role).0;
    forall k | k in s'.roles.rows ensures !AdminCode(s'.roles.rows[k].code) {
      if k != id && AdminCode(s.roles.rows[k].code) {
        AdminCodeUnique(s, id, k);
      }
    }
    NoAdminRole(s');
  }

  /** A role update that is carried out keeps an active administrator if and only if it keeps
      the code of the admin role: renaming that role leaves nobody an administrator. */
  lemma ChangeRoleExactly(s: State, known: set<string>, id: nat, input: RoleInput)
    requires Sound(s) && HasActiveAdmin(s) && ChangeRole(s, known, id, input).1.Ok?
    ensures HasActiveAdmin(ChangeRole(s, known, id, input).0) <==> KeepsAdminCode(s, id, input)
  {
    if KeepsAdminCode(s, id, input) {
      ChangeRoleKeepsAdmin(s, known, id, input);
    } else {
      RoleFromCode(known, input);
      RenamingLosesAdmin(s, id, RoleFrom(known, input));
    }
  }

  // -------------------------------------------------------------------- soundness

  lemma UserWriteKeepsSound(s: State, s': State, id: nat)
    requires Sound(s) && Accounts.Valid(s') && s'.roles == s.roles
    requires forall k | k in s'.users.rows && k != id :: k in s.users.rows && s'.users.rows[k] == s.users.rows[k]
    requires id in s'.users.rows ==> UserSound(s'.users.rows[id], s.roles.rows)
    ensures Sound(s')
  {
  }

  lemma StoreNewKeepsSound(s: State, user: Result<User>)
    requires Sound(s) && (user.Ok? ==> UserSound(user.value, s.roles.rows))
    ensures Sound(StoreNew(s, user).0)
  {
    if user.Ok? {
      CreateUserKeepsValid(s, user.value);
      UserWriteKeepsSound(s, StoreNew(s, user).0, s.users.next);
    }
  }

  lemma UpdateUserKeepsSound(s: State, id: nat, update: User)
    requires Sound(s) && UserSound(update, s.roles.rows)
    ensures Sound(UpdateUser(s, id, update).0)
  {
    UpdateUserKeepsValid(s, id, update);
    var (s', r) := UpdateUser(s, id, update);
    if r.Ok? {
      UserWriteKeepsSound(s, s', id);
    }
  }

  lemma StoreChangedKeepsSound(s: State, id: nat, user: Result<User>, badPassword: bool)
    requires Sound(s) && (user.Ok? ==> UserSound(user.value, s.roles.rows))
    ensures Sound(StoreChanged(s, id, user, badPassword).0)
  {
    if user.Ok? {
      UpdateUserKeepsSound(s, id, user.value);
    }
  }

  lemma SetStatusKeepsSound(s: State, id: nat, status: string)
    requires Sound(s)
    ensures Sound(SetStatus(s, id, status).0)
  {
    CallKeepsValid(s, CallUpdateUserStatus(id, TrimSpace(status)));
    if SetStatus(s, id, status).1.Ok? {
      UserWriteKeepsSound(s, SetStatus(s, id, status).0, id);
    }
  }

  lemma DeleteKeepsSound(s: State, id: nat)
    requires Sound(s)
    ensures Sound(Delete(s, id).0)
  {
    CallKeepsValid(s, CallDeleteUser(id));
    if Delete(s, id).1.Ok? {
      UserWriteKeepsSound(s, Delete(s, id).0, id);
    }
  }

  lemma StoreNewRoleKeepsSound(s: State, role: Result<Role>)
    requires Sound(s) && (role.Ok? ==> Trimmed(role.value.code))
    ensures Sound(StoreNewRole(s, role).0)
  {
    if role.Ok? {
      CreateRoleKeepsValid(s, role.value);
    }
  }

  lemma StoreChangedRoleKeepsSound(s: State, id: nat, role: Result<Role>)
    requires Sound(s) && (role.Ok? ==> Trimmed(role.value.code))
    ensures Sound(StoreChangedRole(s, id, role).0)
  {
    if role.Ok? {
      UpdateRoleKeepsValid(s, id, role.value);
    }
  }

  /** Only a role that nobody is assigned is deleted. */
  lemma DeleteRoleKeepsSound(s: State, id: nat)
    requires Sound(s)
    ensures Sound(DeleteRole(s, id).0)
  {
    DeleteRoleKeepsValid(s, id);
  }

  lemma ProfileKeepsSound(s: State, id: nat, profile: ProfileInput)
    requires Sound(s)
    ensures Sound(UpdateProfile(s, id, profile).0)
  {
    if id in s.users.rows {
      UpdateUserKeepsSound(s, id, WithProfile(s.users.rows[id], profile));
    }
  }

  lemma PasswordKeepsSound(s: State, id: nat, current: string, next: string, verified: bool, hash: string)
    requires Sound(s)
    ensures Sound(ChangePassword(s, id, current, next, verified, hash).0)
  {
    if id in s.users.rows {
      UpdateUserKeepsSound(s, id, s.users.rows[id].(passwordHash := hash));
    }
  }

  lemma StepKeepsSound(s: State, step: Step)
    requires Sound(s)
    ensures Sound(Do(s, step))
  {
    match step
    case StepCreate(input, hash) =>
      NewUserSound(s.roles.rows, input, hash);
      StoreNewKeepsSound(s, NewUser(s.roles.rows, input, hash));
    case StepUpdate(id, input, hash) =>
      ChangedUserSound(s.roles.rows, input, hash);
      StoreChangedKeepsSound(s, id, ChangedUser(s.roles.rows, input, hash), BadNewPassword(input.password));
    case StepSetStatus(id, status) => SetStatusKeepsSound(s, id, status);
    case StepDelete(id) => DeleteKeepsSound(s, id);
    case StepProfile(id, profile) => ProfileKeepsSound(s, id, profile);
    case StepPassword(id, current, next, verified, hash) => PasswordKeepsSound(s, id, current, next, verified, hash);
    case StepAddRole(known, role) =>
      RoleFromCode(known, role);
      StoreNewRoleKeepsSound(s, RoleFrom(known, role));
    case StepChangeRole(known, id, role) =>
      RoleFromCode(known, role);
      StoreChangedRoleKeepsSound(s, id, RoleFrom(known, role));
    case StepDeleteRole(id) => DeleteRoleKeepsSound(s, id);
  }

  /** The step is not a role update that takes its code from the admin role. */
  ghost predicate Harmless(s: State, step: Step) {
    step.StepChangeRole? ==> KeepsAdminCode(s, step.id, step.role)
  }

  lemma UserStepKeepsAdmin(s: State, step: Step)
    requires Sound(s) && HasActiveAdmin(s)
    requires step.StepCreate? || step.StepUpdate? || step.StepSetStatus? || step.StepDelete?
    ensures HasActiveAdmin(Do(s, step))
  {
    match step
    case StepCreate(input, hash) =>
      NextIsFree(s);
      StoreNewKeepsAdmin(s, NewUser(s.roles.rows, input, hash));
    case StepUpdate(id, input, hash) =>
      ChangedUserSound(s.roles.rows, input, hash);
      StoreChangedKeepsAdmin(s, id, ChangedUser(s.roles.rows, input, hash), BadNewPassword(input.password));
    case StepSetStatus(id, status) => SetStatusKeepsAdmin(s, id, status);
    case StepDelete(id) => DeleteKeepsAdmin(s, id);
  }

  lemma StepKeepsAdmin(s: State, step: Step)
    requires Sound(s) && HasActiveAdmin(s) && Harmless(s, step)
    ensures HasActiveAdmin(Do(s, step))
  {
    match step
    case StepProfile(id, profile) => ProfileKeepsAdmin(s, id, profile);
    case StepPassword(id, current, next, verified, hash) => PasswordKeepsAdmin(s, id, current, next, verified, hash);
    case StepAddRole(known, role) => AddRoleKeepsAdmin(s, known, role);
    case StepChangeRole(known, id, role) => ChangeRoleKeepsAdmin(s, known, id, role);
    case StepDeleteRole(id) => DeleteRoleKeepsAdmin(s, id);
    case _ => UserStepKeepsAdmin(s, step);
  }
}
