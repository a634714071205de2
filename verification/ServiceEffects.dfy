/**
 What the service calls on users and roles answer and write, field by field: when a call
 succeeds, the error it gives otherwise, the row it leaves, and that nothing else changes.
 */
module ServiceEffects {
  import opened Domain
  import opened Tables
  import opened Text
  import opened Accounts
  import opened ServiceModel
  import opened Permissions
  import LA = LastAdministrator
  import B = Bootstrap
  import PM = PermissionMeaning

  // ------------------------------------------------------------ words for the conditions

  ghost predicate Blank(text: string) {
    forall c | c in text :: IsSpace(c)
  }

  ghost predicate WeakPassword(password: string) {
    |password| < 8 || Blank(password)
  }

  ghost predicate UnknownStatus(status: string) {
    TrimSpace(status) != "" && TrimSpace(status) != "active" && TrimSpace(status) != "disabled"
  }

  ghost predicate UnknownRole(s: State, ids: seq<nat>) {
    exists id | id in ids :: id == 0 || id !in s.roles.rows
  }

  /** The user has the login name, the email or the phone number; blank ones are nobody's. */
  ghost predicate Shares(u: User, username: string, email: string, phone: string) {
    || EqualFold(u.username, username)
    || (TrimSpace(email) != "" && EqualFold(TrimSpace(u.email), TrimSpace(email)))
    || (TrimSpace(phone) != "" && TrimSpace(u.phone) == TrimSpace(phone))
  }

  ghost predicate InUse(s: State, id: nat, username: string, email: string, phone: string) {
    exists k | k in s.users.rows && k != id :: Shares(s.users.rows[k], username, email, phone)
  }

  /** Somebody holds a stored role whose trimmed code folds to "admin", and is active. */
  ghost predicate Administers(s: State, user: nat) {
    user in s.users.rows && s.users.rows[user].status == "active" && NamesAdmin(s, s.users.rows[user].roleIDs)
  }

  ghost predicate NamesAdmin(s: State, ids: seq<nat>) {
    exists role | role in ids :: role in s.roles.rows && EqualFold(TrimSpace(s.roles.rows[role].code), "admin")
  }

  ghost predicate IsOnlyAdministrator(s: State, user: nat) {
    Administers(s, user) && forall other: nat | other != user :: !Administers(s, other)
  }

  /** The IDs once each, in the order in which they first occur. */
  ghost predicate ListsOnce(out: seq<nat>, ids: seq<nat>) {
    && (forall id :: id in out <==> id in ids)
    && (forall a, b | 0 <= a < b < |out| :: out[a] != out[b])
    && (forall a, b, j | 0 <= a < b < |out| && 0 <= j < |ids| && ids[j] == out[b] ::
        exists i | 0 <= i < j :: ids[i] == out[a])
  }

  /** From `s` to `s'` only the stored user `id` changed. */
  ghost predicate OnlyUserChanged(s: State, s': State, id: nat) {
    && s'.roles == s.roles && s'.users.next == s.users.next
    && id in s.users.rows && s'.users.rows.Keys == s.users.rows.Keys
    && forall k | k in s.users.rows && k != id :: s'.users.rows[k] == s.users.rows[k]
  }

  /** A user was added under the next ID. */
  ghost predicate UserAdded(s: State, s': State) {
    && s'.roles == s.roles && s'.users.next == s.users.next + 1
    && s.users.next !in s.users.rows && s'.users.rows.Keys == s.users.rows.Keys + {s.users.next}
    && forall k | k in s.users.rows :: s'.users.rows[k] == s.users.rows[k]
  }

  // ------------------------------------------------------ the conditions in the model's terms

  lemma PolicyMeaning(password: string)
    ensures PasswordPolicy(password) <==> !WeakPassword(password)
  {
    TrimSpaceBlank(password);
  }

  lemma StatusMeaning(status: string)
    ensures NormalStatus(status).None? <==> UnknownStatus(status)
    ensures !UnknownStatus(status) ==>
      NormalStatus(status) == Some(if TrimSpace(status) == "" then "active" else TrimSpace(status))
  {
  }

  lemma RolesMeaning(s: State, ids: seq<nat>)
    ensures UnknownRole(s, ids) ==> CheckedRoleIDs(s.roles.rows, ids) == Err(Validation(["role_ids"]))
    ensures !UnknownRole(s, ids) ==>
      CheckedRoleIDs(s.roles.rows, ids).Ok? && ListsOnce(CheckedRoleIDs(s.roles.rows, ids).value, ids)
  {
    FirstIDsInOrder(ids);
  }

  lemma {:induction false} FirstIDsInOrder(ids: seq<nat>)
    ensures ListsOnce(FirstIDs(ids), ids)
  {
    if ids != [] {
      var n := |ids| - 1;
      FirstIDsInOrder(ids[..n]);
      assert ids == ids[..n] + [ids[n]];
      var before, out := FirstIDs(ids[..n]), FirstIDs(ids);
      forall a, b, j | 0 <= a < b < |out| && 0 <= j < |ids| && ids[j] == out[b]
        ensures exists i | 0 <= i < j :: ids[i] == out[a]
      {
        assert j < n ==> ids[..n][j] in ids[..n];
        if b < |before| && j < n {
          var i :| 0 <= i < j && ids[..n][i] == before[a];
          assert ids[i] == out[a];
        } else {
          assert before[a] in ids[..n];
          var i :| 0 <= i < n && ids[..n][i] == before[a];
          assert ids[i] == out[a];
        }
      }
    }
  }

  lemma TakenMeaning(s: State, u: User, id: nat)
    requires Numbered(s.users, USER_ID)
    ensures UserTaken(s.users.rows, u, id) <==> InUse(s, id, u.username, u.email, u.phone)
  {
    forall k | k in s.users.rows
      ensures UserConflicts(s.users.rows[k], u, id) <==>
        k != id && Shares(s.users.rows[k], u.username, u.email, u.phone)
    {
      assert USER_ID(s.users.rows[k]) == k;
    }
  }

  lemma TrimmedInUse(s: State, id: nat, username: string, email: string, phone: string)
    ensures InUse(s, id, username, TrimSpace(email), TrimSpace(phone)) <==> InUse(s, id, username, email, phone)
  {
    TrimSpaceTwice(email);
    TrimSpaceTwice(phone);
  }

  lemma AdministersMeaning(s: State, user: nat)
    ensures Administers(s, user) <==> IsActiveAdmin(s, user)
  {
  }

  /** The guard refuses exactly what would leave the only administrator without the role or
      inactive. */
  lemma GuardMeaning(s: State, id: nat, nextRoleIDs: seq<nat>, nextStatus: string)
    requires Sound(s) && id in s.users.rows
    ensures RemovesLast(s, s.users.rows[id], nextRoleIDs, nextStatus) <==>
      IsOnlyAdministrator(s, id) && !(nextStatus == "active" && NamesAdmin(s, nextRoleIDs))
  {
    var admin := AdminRoleID(RoleList(s));
    assert USER_ID(s.users.rows[id]) == id;
    forall ids ensures NamesAdmin(s, ids) <==> admin.Some? && admin.value in ids {
      NamesAdminMeaning(s, ids);
    }
    forall other: nat
      ensures Administers(s, other) <==>
        other in s.users.rows && Active(s.users.rows[other]) && NamesAdmin(s, s.users.rows[other].roleIDs)
    {
    }
  }

  lemma NamesAdminMeaning(s: State, ids: seq<nat>)
    requires Sound(s)
    ensures var admin := AdminRoleID(RoleList(s)); NamesAdmin(s, ids) <==> admin.Some? && admin.value in ids
  {
    var admin := AdminRoleID(RoleList(s));
    if NamesAdmin(s, ids) {
      var role :| role in ids && role in s.roles.rows && EqualFold(TrimSpace(s.roles.rows[role].code), "admin");
      LA.AdminRoleMeaning(s, role);
    }
    if admin.Some? {
      LA.AdminRoleMeaning(s, admin.value);
    }
  }

  // ----------------------------------------------------------------------- status, deletion

  /** `SetStatus`: the error, or the same user with the trimmed status. */
  lemma SetStatusEffect(s: State, id: nat, status: string)
    requires Sound(s)
    ensures var (s', r) := SetStatus(s, id, status);
      if TrimSpace(status) != "active" && TrimSpace(status) != "disabled" then
        r == Err(Validation(["status"])) && s' == s
      else if id !in s.users.rows then r == Err(NotFound) && s' == s
      else if TrimSpace(status) == "disabled" && IsOnlyAdministrator(s, id) then
        r == Err(Error.LastAdministrator) && s' == s
      else
        OnlyUserChanged(s, s', id) && r == Ok(s'.users.rows[id]) &&
        HasFields(s'.users.rows[id], s.users.rows[id].(status := TrimSpace(status)))
  {
    if id in s.users.rows {
      GuardMeaning(s, id, s.users.rows[id].roleIDs, TrimSpace(status));
    }
  }

  ghost predicate HasFields(u: User, v: User) {
    && u.id == v.id && u.username == v.username && u.nickname == v.nickname && u.email == v.email
    && u.phone == v.phone && u.avatar == v.avatar && u.passwordHash == v.passwordHash
    && u.roleIDs == v.roleIDs && u.status == v.status
  }

  /** `Delete`: the error, or the user is gone. */
  lemma DeleteEffect(s: State, id: nat)
    requires Sound(s)
    ensures var (s', r) := Delete(s, id);
      if id !in s.users.rows then r == Err(NotFound) && s' == s
      else if IsOnlyAdministrator(s, id) then r == Err(Error.LastAdministrator) && s' == s
      else
        && r == Ok(()) && s'.roles == s.roles && s'.users.next == s.users.next
        && s'.users.rows.Keys == s.users.rows.Keys - {id}
        && forall k | k in s.users.rows && k != id :: s'.users.rows[k] == s.users.rows[k]
  {
    if id in s.users.rows {
      GuardMeaning(s, id, [], STATUS_DISABLED);
    }
  }

  // --------------------------------------------------------------------- creation and update

  /** The row shows the trimmed input: role IDs once each, and a blank status is "active". */
  ghost predicate HasInput(u: User, input: UserInput) {
    && u.username == TrimSpace(input.username) && u.nickname == TrimSpace(input.nickname)
    && u.email == TrimSpace(input.email) && u.phone == TrimSpace(input.phone)
    && u.avatar == TrimSpace(input.avatar) && ListsOnce(u.roleIDs, input.roleIDs)
    && u.status == if TrimSpace(input.status) == "" then "active" else TrimSpace(input.status)
  }

  lemma BlankMeaning(text: string)
    ensures TrimSpace(text) == "" <==> Blank(text)
  {
    TrimSpaceBlank(text);
  }

  lemma CandidateMeaning(s: State, input: UserInput, hash: string)
    ensures var c := Candidate(s.roles.rows, input, hash);
      if UnknownStatus(input.status) then c == Err(Validation(["status"]))
      else if UnknownRole(s, input.roleIDs) then c == Err(Validation(["role_ids"]))
      else c.Ok? && HasInput(c.value, input) && c.value.passwordHash == hash
  {
    StatusMeaning(input.status);
    RolesMeaning(s, input.roleIDs);
  }

  ghost function InvalidFields(input: UserInput): seq<string> {
    (if Blank(input.username) then ["username"] else []) + (if WeakPassword(input.password) then ["password"] else [])
  }

  lemma NewUserMeaning(s: State, input: UserInput, hash: string)
    ensures var c := NewUser(s.roles.rows, input, hash);
      if InvalidFields(input) != [] then c == Err(Validation(InvalidFields(input)))
      else if UnknownStatus(input.status) then c == Err(Validation(["status"]))
      else if UnknownRole(s, input.roleIDs) then c == Err(Validation(["role_ids"]))
      else c.Ok? && HasInput(c.value, input) && c.value.passwordHash == hash
  {
    BlankMeaning(input.username);
    PolicyMeaning(input.password);
    CandidateMeaning(s, input, hash);
  }

  lemma StoreNewMeaning(s: State, u: User)
    requires Accounts.Valid(s)
    ensures var (s', r) := StoreNew(s, Ok(u));
      if InUse(s, 0, u.username, u.email, u.phone) then r == Err(Conflict) && s' == s
      else
        UserAdded(s, s') && r == Ok(s'.users.rows[s.users.next]) &&
        HasFields(s'.users.rows[s.users.next], u.(id := s.users.next))
  {
    TakenMeaning(s, u, 0);
    LA.NextIsFree(s);
  }

  /** `Create`: the error, or a new user under the next ID with the trimmed input and the hash. */
  lemma CreateEffect(s: State, input: UserInput, hash: string)
    requires Accounts.Valid(s)
    ensures var (s', r) := Create(s, input, hash);
      if InvalidFields(input) != [] then r == Err(Validation(InvalidFields(input))) && s' == s
      else if UnknownStatus(input.status) then r == Err(Validation(["status"])) && s' == s
      else if UnknownRole(s, input.roleIDs) then r == Err(Validation(["role_ids"])) && s' == s
      else if InUse(s, 0, TrimSpace(input.username), input.email, input.phone) then r == Err(Conflict) && s' == s
      else
        UserAdded(s, s') && r == Ok(s'.users.rows[s.users.next]) &&
        var u := s'.users.rows[s.users.next];
        u.id == s.users.next && HasInput(u, input) && u.passwordHash == hash
  {
    NewUserMeaning(s, input, hash);
    var c := NewUser(s.roles.rows, input, hash);
    if c.Ok? {
      StoreNewMeaning(s, c.value);
      TrimmedInUse(s, 0, TrimSpace(input.username), input.email, input.phone);
    }
  }

  /** What the store keeps of an update: the ID, and the hash and the status when none is given. */
  ghost predicate HasUpdate(u: User, was: User, update: User) {
    HasFields(u, update.(
      id := was.id,
      passwordHash := if update.passwordHash == "" then was.passwordHash else update.passwordHash,
      status := if update.status == "" then was.status else update.status))
  }

  lemma StoreUpdateMeaning(s: State, id: nat, update: User)
    requires Accounts.Valid(s) && id in s.users.rows
    ensures s.users.rows[id].id == id
    ensures var (s', r) := UpdateUser(s, id, update);
      if InUse(s, id, update.username, update.email, update.phone) then r == Err(Conflict) && s' == s
      else
        OnlyUserChanged(s, s', id) && r == Ok(s'.users.rows[id]) &&
        HasUpdate(s'.users.rows[id], s.users.rows[id], update)
  {
    TakenMeaning(s, update, id);
    assert USER_ID(s.users.rows[id]) == id;
  }

  lemma ChangedUserMeaning(s: State, input: UserInput, hash: string)
    ensures var c := ChangedUser(s.roles.rows, input, hash);
      if Blank(input.username) then c == Err(Validation(["username"]))
      else if UnknownStatus(input.status) then c == Err(Validation(["status"]))
      else if UnknownRole(s, input.roleIDs) then c == Err(Validation(["role_ids"]))
      else c.Ok? && HasInput(c.value, input) && c.value.passwordHash == if input.password == "" then "" else hash
  {
    BlankMeaning(input.username);
    CandidateMeaning(s, input, if input.password == "" then "" else hash);
  }

  /** The status the input asks for is not active, or its roles do not make an administrator. */
  ghost predicate ResignsAdministrator(s: State, input: UserInput) {
    TrimSpace(input.status) == "disabled" || !NamesAdmin(s, input.roleIDs)
  }

  lemma SameIDsSameAdmin(s: State, out: seq<nat>, ids: seq<nat>)
    requires ListsOnce(out, ids)
    ensures NamesAdmin(s, out) <==> NamesAdmin(s, ids)
  {
  }

  lemma StoreChangedMeaning(s: State, id: nat, c: User, badPassword: bool)
    requires Sound(s) && id in s.users.rows
    ensures var (s', r) := StoreChanged(s, id, Ok(c), badPassword);
      if IsOnlyAdministrator(s, id) && !(c.status == "active" && NamesAdmin(s, c.roleIDs)) then
        r == Err(Error.LastAdministrator) && s' == s
      else if badPassword then r == Err(Validation(["password"])) && s' == s
      else if InUse(s, id, c.username, c.email, c.phone) then r == Err(Conflict) && s' == s
      else
        OnlyUserChanged(s, s', id) && r == Ok(s'.users.rows[id]) &&
        HasUpdate(s'.users.rows[id], s.users.rows[id], c)
  {
    GuardMeaning(s, id, c.roleIDs, c.status);
    StoreUpdateMeaning(s, id, c);
  }

  /** The user after a successful update: the trimmed input under the old ID, with the given hash
      when the input has a password, and with the old one when it has none. */
  ghost predicate Shows(u: User, was: User, input: UserInput, hash: string) {
    && u.id == was.id && HasInput(u, input)
    && u.passwordHash == if input.password == "" || hash == "" then was.passwordHash else hash
  }

  lemma UpdateShows(u: User, was: User, c: User, input: UserInput, hash: string)
    requires HasUpdate(u, was, c) && HasInput(c, input)
    requires c.passwordHash == if input.password == "" then "" else hash
    ensures Shows(u, was, input, hash)
  {
    assert c.status != "";
  }

  ghost predicate InputRefused(s: State, input: UserInput) {
    Blank(input.username) || UnknownStatus(input.status) || UnknownRole(s, input.roleIDs)
  }

  /** `Update` refuses bad input before it looks for the user. */
  lemma UpdateRefuses(s: State, id: nat, input: UserInput, hash: string)
    ensures InputRefused(s, input) ==>
      Update(s, id, input, hash) == (s, Err(Validation(
        if Blank(input.username) then ["username"]
        else if UnknownStatus(input.status) then ["status"]
        else ["role_ids"])))
    ensures !InputRefused(s, input) && id !in s.users.rows ==> Update(s, id, input, hash) == (s, Err(NotFound))
  {
    ChangedUserMeaning(s, input, hash);
  }

  /** `Update` of a stored user with good input: the error, or the user with the input. */
  lemma UpdateEffect(s: State, id: nat, input: UserInput, hash: string)
    requires Sound(s) && id in s.users.rows && !InputRefused(s, input)
    ensures var (s', r) := Update(s, id, input, hash);
      if IsOnlyAdministrator(s, id) && ResignsAdministrator(s, input) then
        r == Err(Error.LastAdministrator) && s' == s
      else if input.password != "" && WeakPassword(input.password) then
        r == Err(Validation(["password"])) && s' == s
      else if InUse(s, id, TrimSpace(input.username), input.email, input.phone) then
        r == Err(Conflict) && s' == s
      else
        OnlyUserChanged(s, s', id) && r == Ok(s'.users.rows[id]) &&
        Shows(s'.users.rows[id], s.users.rows[id], input, hash)
  {
    ChangedUserMeaning(s, input, hash);
    var c := ChangedUser(s.roles.rows, input, hash).value;
    PolicyMeaning(input.password);
    StoreChangedMeaning(s, id, c, BadNewPassword(input.password));
    SameIDsSameAdmin(s, c.roleIDs, input.roleIDs);
    TrimmedInUse(s, id, TrimSpace(input.username), input.email, input.phone);
    var (s', r) := Update(s, id, input, hash);
    if r.Ok? {
      UpdateShows(s'.users.rows[id], s.users.rows[id], c, input, hash);
    }
  }

  // ------------------------------------------------------------------------- the own account

  /** The user with the four profile fields, trimmed, and everything else as before. */
  ghost predicate HasProfile(u: User, was: User, input: ProfileInput) {
    HasFields(u, was.(nickname := TrimSpace(input.nickname), email := TrimSpace(input.email),
                      phone := TrimSpace(input.phone), avatar := TrimSpace(input.avatar)))
  }

  lemma UpdateHasProfile(u: User, was: User, input: ProfileInput)
    requires HasUpdate(u, was, WithProfile(was, input))
    ensures HasProfile(u, was, input)
  {
  }

  /** `UpdateProfile`: the error, or the user with the new profile. */
  lemma UpdateProfileEffect(s: State, id: nat, input: ProfileInput)
    requires Sound(s)
    ensures var (s', r) := UpdateProfile(s, id, input);
      if id !in s.users.rows then r == Err(NotFound) && s' == s
      else if s.users.rows[id].status != "active" then r == Err(DisabledUser) && s' == s
      else if InUse(s, id, s.users.rows[id].username, input.email, input.phone) then r == Err(Conflict) && s' == s
      else
        OnlyUserChanged(s, s', id) && r == Ok(s'.users.rows[id]) &&
        HasProfile(s'.users.rows[id], s.users.rows[id], input)
  {
    if id in s.users.rows && Active(s.users.rows[id]) {
      var was := s.users.rows[id];
      StoreUpdateMeaning(s, id, WithProfile(was, input));
      TrimmedInUse(s, id, was.username, input.email, input.phone);
      var (s', r) := UpdateProfile(s, id, input);
      if r.Ok? {
        UpdateHasProfile(s'.users.rows[id], was, input);
      }
    }
  }

  ghost function WrongFields(current: string, next: string): seq<string> {
    (if current == "" then ["current_password"] else []) + (if WeakPassword(next) then ["new_password"] else [])
  }

  /** A user's own keys are never in use by somebody else. */
  lemma OwnKeysFree(s: State, id: nat)
    requires Accounts.Valid(s) && id in s.users.rows
    ensures var u := s.users.rows[id]; !InUse(s, id, u.username, u.email, u.phone)
  {
    B.OwnKeysNotTaken(s, id, s.users.rows[id]);
    TakenMeaning(s, s.users.rows[id], id);
  }

  /** `ChangePassword`: the error, or the user with the new hash; a conflict is impossible. */
  lemma ChangePasswordEffect(s: State, id: nat, current: string, next: string, verified: bool, hash: string)
    requires Sound(s)
    ensures var (s', r) := ChangePassword(s, id, current, next, verified, hash);
      if WrongFields(current, next) != [] then r == Err(Validation(WrongFields(current, next))) && s' == s
      else if id !in s.users.rows then r == Err(NotFound) && s' == s
      else if s.users.rows[id].status != "active" then r == Err(DisabledUser) && s' == s
      else if !verified then r == Err(InvalidCredentials) && s' == s
      else
        r == Ok(()) && OnlyUserChanged(s, s', id) &&
        HasFields(s'.users.rows[id], s.users.rows[id].(
          passwordHash := if hash == "" then s.users.rows[id].passwordHash else hash))
  {
    PolicyMeaning(next);
    if id in s.users.rows {
      StoreUpdateMeaning(s, id, s.users.rows[id].(passwordHash := hash));
      OwnKeysFree(s, id);
    }
  }

  // --------------------------------------------------------------------------------- roles

  ghost predicate UnknownPermission(known: set<string>, permissions: seq<string>) {
    exists v | v in permissions :: TrimSpace(v) != "" && TrimSpace(v) != "*" && TrimSpace(v) !in known
  }

  ghost function InvalidRoleFields(known: set<string>, input: RoleInput): seq<string> {
    (if Blank(input.name) then ["name"] else []) + (if Blank(input.code) then ["code"] else []) +
    (if UnknownPermission(known, input.permissions) then ["permissions"] else [])
  }

  ghost predicate HasRoleInput(role: Role, input: RoleInput) {
    && role.name == TrimSpace(input.name) && role.code == TrimSpace(input.code)
    && role.description == TrimSpace(input.description) && PM.IsCleanList(role.permissions, input.permissions)
  }

  lemma PermissionsMeaning(known: set<string>, permissions: seq<string>)
    ensures Grants(permissions) - {PERMISSION_ALL} <= known <==> !UnknownPermission(known, permissions)
  {
    if Grants(permissions) - {PERMISSION_ALL} <= known {
      forall v | v in permissions && TrimSpace(v) != "" && TrimSpace(v) != "*" ensures TrimSpace(v) in known {
        assert TrimSpace(v) in Grants(permissions) - {PERMISSION_ALL};
      }
    }
  }

  lemma RoleFromMeaning(known: set<string>, input: RoleInput)
    ensures var c := RoleFrom(known, input);
      if InvalidRoleFields(known, input) != [] then c == Err(Validation(InvalidRoleFields(known, input)))
      else c.Ok? && HasRoleInput(c.value, input)
  {
    BlankMeaning(input.name);
    BlankMeaning(input.code);
    PermissionsMeaning(known, input.permissions);
    PM.CleanedEntries(input.permissions);
  }

  ghost predicate CodeInUse(s: State, id: nat, code: string) {
    exists k | k in s.roles.rows && k != id :: EqualFold(s.roles.rows[k].code, code)
  }

  /** The role `id` is written and nothing else. */
  ghost predicate OnlyRoleWritten(s: State, s': State, id: nat) {
    && s'.users == s.users && s'.roles.rows.Keys == s.roles.rows.Keys + {id}
    && forall k | k in s.roles.rows && k != id :: s'.roles.rows[k] == s.roles.rows[k]
  }

  /** `CreateRole`: the error, or a new role under the next ID. */
  lemma CreateRoleEffect(s: State, known: set<string>, input: RoleInput)
    requires Accounts.Valid(s)
    ensures var (s', r) := AddRole(s, known, input);
      if InvalidRoleFields(known, input) != [] then r == Err(Validation(InvalidRoleFields(known, input))) && s' == s
      else if CodeInUse(s, 0, TrimSpace(input.code)) then r == Err(Conflict) && s' == s
      else
        var id := s.roles.next;
        id !in s.roles.rows && OnlyRoleWritten(s, s', id) && s'.roles.next == id + 1 &&
        r == Ok(s'.roles.rows[id]) && s'.roles.rows[id].id == id && HasRoleInput(s'.roles.rows[id], input)
  {
    RoleFromMeaning(known, input);
    LA.NextIsFree(s);
  }

  /** `UpdateRole`: the error, or the role with the input under the old ID. */
  lemma UpdateRoleEffect(s: State, known: set<string>, id: nat, input: RoleInput)
    ensures var (s', r) := ChangeRole(s, known, id, input);
      if InvalidRoleFields(known, input) != [] then r == Err(Validation(InvalidRoleFields(known, input))) && s' == s
      else if id !in s.roles.rows then r == Err(NotFound) && s' == s
      else if CodeInUse(s, id, TrimSpace(input.code)) then r == Err(Conflict) && s' == s
      else
        OnlyRoleWritten(s, s', id) && s'.roles.next == s.roles.next &&
        r == Ok(s'.roles.rows[id]) && s'.roles.rows[id].id == id && HasRoleInput(s'.roles.rows[id], input)
  {
    RoleFromMeaning(known, input);
  }

  /** `DeleteRole`: the error, or the role is gone; a role somebody holds stays. */
  lemma DeleteRoleEffect(s: State, id: nat)
    ensures var (s', r) := DeleteRole(s, id);
      if id !in s.roles.rows then r == Err(NotFound) && s' == s
      else if exists user | user in s.users.rows :: id in s.users.rows[user].roleIDs then
        r == Err(Conflict) && s' == s
      else
        && r == Ok(()) && s'.users == s.users && s'.roles.next == s.roles.next
        && s'.roles.rows.Keys == s.roles.rows.Keys - {id}
        && forall k | k in s.roles.rows && k != id :: s'.roles.rows[k] == s.roles.rows[k]
  {
  }

  // ------------------------------------------------------------------------------ validity

  /** In a valid state nobody shares a login name, a nonblank email or a nonblank phone number with
      somebody else, and no two roles have codes that fold to the same. */
  lemma NothingShared(s: State)
    requires Accounts.Valid(s)
    ensures forall i, j | i in s.users.rows && j in s.users.rows && i != j ::
      var u := s.users.rows[i]; !Shares(s.users.rows[j], u.username, u.email, u.phone)
    ensures forall i, j | i in s.roles.rows && j in s.roles.rows && i != j ::
      !EqualFold(s.roles.rows[i].code, s.roles.rows[j].code)
  {
    forall i, j | i in s.users.rows && j in s.users.rows && i != j
      ensures var u := s.users.rows[i]; !Shares(s.users.rows[j], u.username, u.email, u.phone)
    {
      OwnKeysFree(s, i);
    }
    forall i, j | i in s.roles.rows && j in s.roles.rows && i != j
      ensures !EqualFold(s.roles.rows[i].code, s.roles.rows[j].code)
    {
      assert !EqualFold(ROLE_CODE(s.roles.rows[i]), ROLE_CODE(s.roles.rows[j]));
    }
  }

  /** In a sound state every user has their own ID as the key, stored roles once each and one of the
      two statuses; no ID has reached the counter it comes from. */
  lemma SoundMeaning(s: State)
    requires Sound(s)
    ensures forall id | id in s.users.rows :: 0 < id < s.users.next && s.users.rows[id].id == id
    ensures forall id | id in s.roles.rows :: 0 < id < s.roles.next && s.roles.rows[id].id == id
    ensures forall id | id in s.users.rows ::
      && (forall role | role in s.users.rows[id].roleIDs :: role in s.roles.rows)
      && (forall i, j | 0 <= i < j < |s.users.rows[id].roleIDs| ::
          s.users.rows[id].roleIDs[i] != s.users.rows[id].roleIDs[j])
      && (s.users.rows[id].status == "active" || s.users.rows[id].status == "disabled")
  {
    forall id | id in s.users.rows ensures 0 < id < s.users.next && s.users.rows[id].id == id {
      assert USER_ID(s.users.rows[id]) == id;
    }
    forall id | id in s.roles.rows ensures 0 < id < s.roles.next && s.roles.rows[id].id == id {
      assert ROLE_ID(s.roles.rows[id]) == id;
    }
    forall id | id in s.users.rows ensures UserSound(s.users.rows[id], s.roles.rows) {
    }
  }
}
