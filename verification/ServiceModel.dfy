/**
 What the service calls on users and roles do, each call as one step.

 A password hash is random, so it is a parameter; so is the outcome of checking a
 password against a stored hash.
 */
module ServiceModel {
  import opened Domain
  import opened Text
  import opened Paging
  import opened Accounts
  import opened Permissions

  const PASSWORD_MIN_LENGTH := 8
  const ADMIN := "admin"

  datatype UserInput = UserInput(
    username: string, password: string, nickname: string, email: string, phone: string,
    avatar: string, roleIDs: seq<nat>, status: string)

  datatype ProfileInput = ProfileInput(nickname: string, email: string, phone: string, avatar: string)

  datatype RoleInput = RoleInput(name: string, code: string, description: string, permissions: seq<string>)

  // ------------------------------------------------------------------ input checks

  predicate PasswordPolicy(password: string) {
    |password| >= PASSWORD_MIN_LENGTH && TrimSpace(password) != ""
  }

  /** `normalizeUserStatus`: empty means active. */
  function NormalStatus(status: string): Option<string> {
    var t := TrimSpace(status);
    if t == "" then Some(STATUS_ACTIVE)
    else if t == STATUS_ACTIVE || t == STATUS_DISABLED then Some(t)
    else None
  }

  /** The IDs, each where it first occurs. */
  function FirstIDs(ids: seq<nat>): (r: seq<nat>)
    ensures forall id :: id in r <==> id in ids
    ensures Distinct(r)
  {
    if ids == [] then []
    else
      var before, last := FirstIDs(ids[..|ids| - 1]), ids[|ids| - 1];
      assert ids == ids[..|ids| - 1] + [last];
      if last in before then before else before + [last]
  }

  lemma {:induction false} FirstIDsFixed(ids: seq<nat>)
    requires Distinct(ids)
    ensures FirstIDs(ids) == ids
  {
    if ids != [] {
      FirstIDsFixed(ids[..|ids| - 1]);
      assert ids == ids[..|ids| - 1] + [ids[|ids| - 1]];
    }
  }

  /** `validateRoleIDs`: every ID must be positive and stored. */
  ghost function CheckedRoleIDs(roles: map<nat, Role>, ids: seq<nat>): Result<seq<nat>> {
    if forall id | id in ids :: id != 0 && id in roles then Ok(FirstIDs(ids)) else Err(Validation(["role_ids"]))
  }

  function UserFrom(input: UserInput, roleIDs: seq<nat>, status: string, hash: string): User {
    User(0, TrimSpace(input.username), TrimSpace(input.nickname), TrimSpace(input.email),
         TrimSpace(input.phone), TrimSpace(input.avatar), hash, roleIDs, status)
  }

  // ------------------------------------------------------------- the administrators

  predicate AdminCode(code: string) {
    EqualFold(TrimSpace(code), ADMIN)
  }

  /** `adminRoleID`, `findAdminRole`: the first role of the list coded admin. */
  function AdminRoleID(roles: seq<Role>): Option<nat> {
    if roles == [] then None
    else if AdminCode(roles[0].code) then Some(roles[0].id)
    else AdminRoleID(roles[1..])
  }

  const ANY_ROLE := (r: Role) => true

  function RoleList(s: State): seq<Role> {
    Select(s.roles.rows, ANY_ROLE, s.roles.next)
  }

  predicate Active(u: User) { u.status == STATUS_ACTIVE }

  /** Another active user than `user` holds the role. */
  ghost predicate HasOtherActive(users: map<nat, User>, user: nat, role: nat) {
    exists id | id in users :: id != user && Active(users[id]) && role in users[id].roleIDs
  }

  /** `removesLastActiveAdministrator`. */
  ghost predicate RemovesLast(s: State, user: User, nextRoleIDs: seq<nat>, nextStatus: string) {
    var admin := AdminRoleID(RoleList(s));
    && admin.Some?
    && Active(user) && admin.value in user.roleIDs
    && !(nextStatus == STATUS_ACTIVE && admin.value in nextRoleIDs)
    && !HasOtherActive(s.users.rows, user.id, admin.value)
  }

  ghost predicate IsActiveAdmin(s: State, user: nat) {
    user in s.users.rows && Active(s.users.rows[user]) &&
    exists role | role in s.users.rows[user].roleIDs :: role in s.roles.rows && AdminCode(s.roles.rows[role].code)
  }

  ghost predicate HasActiveAdmin(s: State) {
    exists user: nat :: IsActiveAdmin(s, user)
  }

  // ------------------------------------------------------------------- the calls

  /** The user a create call would store, when its input passes the checks. */
  ghost function NewUser(roles: map<nat, Role>, input: UserInput, hash: string): Result<User> {
    var fields := (if TrimSpace(input.username) == "" then ["username"] else []) +
                  (if PasswordPolicy(input.password) then [] else ["password"]);
    if fields != [] then Err(Validation(fields)) else Candidate(roles, input, hash)
  }

  /** The checks create and update share: status, then role IDs. */
  ghost function Candidate(roles: map<nat, Role>, input: UserInput, hash: string): Result<User> {
    var status := NormalStatus(input.status);
    var roleIDs := CheckedRoleIDs(roles, input.roleIDs);
    if status.None? then Err(Validation(["status"]))
    else if roleIDs.Err? then Err(roleIDs.error)
    else Ok(UserFrom(input, roleIDs.value, status.value, hash))
  }

  ghost function StoreNew(s: State, user: Result<User>): (State, Result<User>) {
    if user.Err? then (s, user) else CreateUser(s, user.value)
  }

  ghost function Create(s: State, input: UserInput, hash: string): (State, Result<User>) {
    StoreNew(s, NewUser(s.roles.rows, input, hash))
  }

  /** The user an update call would store, when its input passes the checks before the guard. */
  ghost function ChangedUser(roles: map<nat, Role>, input: UserInput, hash: string): Result<User> {
    if TrimSpace(input.username) == "" then Err(Validation(["username"]))
    else Candidate(roles, input, if input.password == "" then "" else hash)
  }

  predicate BadNewPassword(password: string) {
    password != "" && !PasswordPolicy(password)
  }

  ghost function StoreChanged(s: State, id: nat, user: Result<User>, badPassword: bool): (State, Result<User>) {
    if user.Err? then (s, user)
    else if id !in s.users.rows then (s, Err(NotFound))
    else if RemovesLast(s, s.users.rows[id], user.value.roleIDs, user.value.status) then (s, Err(LastAdministrator))
    else if badPassword then (s, Err(Validation(["password"])))
    else UpdateUser(s, id, user.value)
  }

  ghost function Update(s: State, id: nat, input: UserInput, hash: string): (State, Result<User>) {
    StoreChanged(s, id, ChangedUser(s.roles.rows, input, hash), BadNewPassword(input.password))
  }

  ghost function SetStatus(s: State, id: nat, status: string): (State, Result<User>) {
    var t := TrimSpace(status);
    if t != STATUS_ACTIVE && t != STATUS_DISABLED then (s, Err(Validation(["status"])))
    else if id !in s.users.rows then (s, Err(NotFound))
    else if RemovesLast(s, s.users.rows[id], s.users.rows[id].roleIDs, t) then (s, Err(LastAdministrator))
    else UpdateUserStatus(s, id, t)
  }

  ghost function Delete(s: State, id: nat): (State, Result<()>) {
    if id !in s.users.rows then (s, Err(NotFound))
    else if RemovesLast(s, s.users.rows[id], [], STATUS_DISABLED) then (s, Err(LastAdministrator))
    else DeleteUser(s, id)
  }

  function WithProfile(u: User, input: ProfileInput): User {
    u.(nickname := TrimSpace(input.nickname), email := TrimSpace(input.email),
       phone := TrimSpace(input.phone), avatar := TrimSpace(input.avatar), passwordHash := "")
  }

  ghost function UpdateProfile(s: State, id: nat, input: ProfileInput): (State, Result<User>) {
    if id !in s.users.rows then (s, Err(NotFound))
    else if !Active(s.users.rows[id]) then (s, Err(DisabledUser))
    else UpdateUser(s, id, WithProfile(s.users.rows[id], input))
  }

  function PasswordFields(current: string, next: string): seq<string> {
    (if current == "" then ["current_password"] else []) + (if PasswordPolicy(next) then [] else ["new_password"])
  }

  ghost function ChangePassword(s: State, id: nat, current: string, next: string, verified: bool, hash: string)
    : (State, Result<()>)
  {
    if PasswordFields(current, next) != [] then (s, Err(Validation(PasswordFields(current, next))))
    else if id !in s.users.rows then (s, Err(NotFound))
    else if !Active(s.users.rows[id]) then (s, Err(DisabledUser))
    else if !verified then (s, Err(InvalidCredentials))
    else
      var (s', r) := UpdateUser(s, id, s.users.rows[id].(passwordHash := hash));
      (s', if r.Ok? then Ok(()) else Err(r.error))
  }

  /** `normalizeRoleInput`: every permission must be the wildcard or in the catalog. */
  function RoleFrom(known: set<string>, input: RoleInput): Result<Role> {
    var name, code := TrimSpace(input.name), TrimSpace(input.code);
    var fields := (if name == "" then ["name"] else []) + (if code == "" then ["code"] else []) +
                  (if Grants(input.permissions) - {PERMISSION_ALL} <= known then [] else ["permissions"]);
    if fields != [] then Err(Validation(fields))
    else Ok(Role(0, name, code, TrimSpace(input.description), Cleaned(input.permissions)))
  }

  ghost function StoreNewRole(s: State, role: Result<Role>): (State, Result<Role>) {
    if role.Err? then (s, role) else CreateRole(s, role.value)
  }

  ghost function AddRole(s: State, known: set<string>, input: RoleInput): (State, Result<Role>) {
    StoreNewRole(s, RoleFrom(known, input))
  }

  ghost function StoreChangedRole(s: State, id: nat, role: Result<Role>): (State, Result<Role>) {
    if role.Err? then (s, role) else UpdateRole(s, id, role.value)
  }

  ghost function ChangeRole(s: State, known: set<string>, id: nat, input: RoleInput): (State, Result<Role>) {
    StoreChangedRole(s, id, RoleFrom(known, input))
  }

  // ------------------------------------------------------- what every call keeps

  ghost predicate UserSound(u: User, roles: map<nat, Role>) {
    && Distinct(u.roleIDs)
    && (forall id | id in u.roleIDs :: id in roles)
    && (u.status == STATUS_ACTIVE || u.status == STATUS_DISABLED)
  }

  /** Users name stored roles only, each once, and have one of the two statuses; role codes are
      trimmed. */
  ghost predicate Sound(s: State) {
    && Accounts.Valid(s)
    && (forall id | id in s.users.rows :: UserSound(s.users.rows[id], s.roles.rows))
    && (forall id | id in s.roles.rows :: Trimmed(s.roles.rows[id].code))
  }

  datatype Step =
    | StepCreate(input: UserInput, hash: string)
    | StepUpdate(id: nat, input: UserInput, hash: string)
    | StepSetStatus(id: nat, status: string)
    | StepDelete(id: nat)
    | StepProfile(id: nat, profile: ProfileInput)
    | StepPassword(id: nat, current: string, next: string, verified: bool, hash: string)
    | StepAddRole(known: set<string>, role: RoleInput)
    | StepChangeRole(known: set<string>, id: nat, role: RoleInput)
    | StepDeleteRole(id: nat)

  ghost function Do(s: State, step: Step): State {
    match step
    case StepCreate(input, hash) => Create(s, input, hash).0
    case StepUpdate(id, input, hash) => Update(s, id, input, hash).0
    case StepSetStatus(id, status) => SetStatus(s, id, status).0
    case StepDelete(id) => Delete(s, id).0
    case StepProfile(id, profile) => UpdateProfile(s, id, profile).0
    case StepPassword(id, current, next, verified, hash) => ChangePassword(s, id, current, next, verified, hash).0
    case StepAddRole(known, role) => AddRole(s, known, role).0
    case StepChangeRole(known, id, role) => ChangeRole(s, known, id, role).0
    case StepDeleteRole(id) => DeleteRole(s, id).0
  }
}
