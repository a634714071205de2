/**
 Runs that include the bootstrap commands: whatever service calls and commands follow
 each other, references stay sound, and an administrator stays.
 */
module AdministratorRuns {
  import opened Bootstrap
  import opened Domain
  import opened ServiceModel
  import opened Text
  import A = Accounts
  import D = SeedData
  import L = LastAdministrator

  datatype Command =
    | Service(step: Step)
    | InitialAdmin(input: UserInput, hash: string)
    | ResetPassword(username: string, password: string, hash: string)

  ghost function Perform(s: A.State, command: Command): A.State {
    match command
    case Service(step) => Do(s, step)
    case InitialAdmin(input, hash) => CreateInitialAdmin(s, input, hash).0
    case ResetPassword(username, password, hash) => ResetAdminPassword(s, username, password, hash).0
  }

  ghost function PerformAll(s: A.State, commands: seq<Command>): A.State
    decreases |commands|
  {
    if commands == [] then s
    else Perform(PerformAll(s, commands[..|commands| - 1]), commands[|commands| - 1])
  }

  /** The command is not a role update that takes its code from the admin role. */
  ghost predicate Harmless(s: A.State, command: Command) {
    command.Service? ==> L.Harmless(s, command.step)
  }

  ghost predicate AllHarmless(s: A.State, commands: seq<Command>)
    decreases |commands|
  {
    commands == [] ||
    (AllHarmless(s, commands[..|commands| - 1]) &&
     Harmless(PerformAll(s, commands[..|commands| - 1]), commands[|commands| - 1]))
  }

  /** A reset is an update of one user, or nothing. */
  lemma ResetIsAStep(s: A.State, username: string, password: string, hash: string)
    ensures var s' := ResetAdminPassword(s, username, password, hash).0;
      s' == s || exists id: nat, input :: s' == Do(s, StepUpdate(id, input, hash))
  {
    var name := NameOrAdmin(username);
    var user := LoginUser(s, name);
    if user.Some? {
      var input := ResetInput(s.users.rows[user.value], name, password);
      assert Update(s, user.value, input, hash).0 == Do(s, StepUpdate(user.value, input, hash));
    }
  }

  lemma CommandKeepsSound(s: A.State, command: Command)
    requires Sound(s)
    ensures Sound(Perform(s, command))
  {
    match command
    case Service(step) => L.StepKeepsSound(s, step);
    case InitialAdmin(input, hash) => CreateInitialAdminEstablishes(s, input, hash);
    case ResetPassword(username, password, hash) =>
      ResetIsAStep(s, username, password, hash);
      if ResetAdminPassword(s, username, password, hash).0 != s {
        var id: nat, input :|
          ResetAdminPassword(s, username, password, hash).0 == Do(s, StepUpdate(id, input, hash));
        L.StepKeepsSound(s, StepUpdate(id, input, hash));
      }
  }

  lemma CommandKeepsAdmin(s: A.State, command: Command)
    requires Sound(s) && HasActiveAdmin(s) && Harmless(s, command)
    ensures HasActiveAdmin(Perform(s, command))
  {
    match command
    case Service(step) => L.StepKeepsAdmin(s, step);
    case InitialAdmin(input, hash) => CreateInitialAdminOnce(s, input, hash);
    case ResetPassword(username, password, hash) =>
      ResetIsAStep(s, username, password, hash);
      if ResetAdminPassword(s, username, password, hash).0 != s {
        var id: nat, input :|
          ResetAdminPassword(s, username, password, hash).0 == Do(s, StepUpdate(id, input, hash));
        L.StepKeepsAdmin(s, StepUpdate(id, input, hash));
      }
  }

  /** Every run of service calls and bootstrap commands keeps references sound. */
  lemma {:induction false} EveryRunKeepsSound(s: A.State, commands: seq<Command>)
    requires Sound(s)
    ensures Sound(PerformAll(s, commands))
    decreases |commands|
  {
    if commands != [] {
      var before := commands[..|commands| - 1];
      EveryRunKeepsSound(s, before);
      CommandKeepsSound(PerformAll(s, before), commands[|commands| - 1]);
    }
  }

  /** Once there is an active administrator, every such run keeps one, as long as no role update
      takes the code from the admin role. */
  lemma {:induction false} EveryRunKeepsAnAdministrator(s: A.State, commands: seq<Command>)
    requires Sound(s) && HasActiveAdmin(s) && AllHarmless(s, commands)
    ensures HasActiveAdmin(PerformAll(s, commands))
    decreases |commands|
  {
    if commands != [] {
      var before := commands[..|commands| - 1];
      EveryRunKeepsAnAdministrator(s, before);
      EveryRunKeepsSound(s, before);
      CommandKeepsAdmin(PerformAll(s, before), commands[|commands| - 1]);
    }
  }

  /** From a seeded store, every run in which no role update takes the code from the admin role
      keeps references sound and an active administrator. */
  lemma SeededRunsKeepAnAdministrator(hash: string, commands: seq<Command>)
    requires AllHarmless(D.Accounts(hash), commands)
    ensures Sound(PerformAll(D.Accounts(hash), commands)) && HasActiveAdmin(PerformAll(D.Accounts(hash), commands))
  {
    D.AccountsSound(hash);
    EveryRunKeepsSound(D.Accounts(hash), commands);
    EveryRunKeepsAnAdministrator(D.Accounts(hash), commands);
  }

  /** A command line can always bring an administrator about where there is none: after a
      successful `CreateInitialAdmin` every such run keeps one. */
  lemma RunsAfterInitialAdmin(s: A.State, input: UserInput, hash: string, commands: seq<Command>)
    requires Sound(s) && CreateInitialAdmin(s, input, hash).1.Ok?
    requires AllHarmless(CreateInitialAdmin(s, input, hash).0, commands)
    ensures HasActiveAdmin(PerformAll(CreateInitialAdmin(s, input, hash).0, commands))
  {
    CreateInitialAdminEstablishes(s, input, hash);
    EveryRunKeepsAnAdministrator(CreateInitialAdmin(s, input, hash).0, commands);
  }

  /** The condition on role updates is needed: renaming the seeded admin role succeeds and leaves
      nobody an administrator. */
  lemma RenamedAdminRoleIsLost(hash: string)
    ensures var s := D.Accounts(hash);
      var renamed := ChangeRole(s, {}, 1, RoleInput("Administrator", "root", "", ["*"]));
      renamed.1.Ok? && !HasActiveAdmin(renamed.0)
  {
    var s, input := D.Accounts(hash), RoleInput("Administrator", "root", "", ["*"]);
    D.AccountsSound(hash);
    RootIsFree(s.roles.rows, hash, input);
    L.ChangeRoleExactly(s, {}, 1, input);
    TrimSpaceFixed("admin");
    TrimSpaceFixed("root");
    D.DifferentLength("root", "admin");
  }

  lemma RootIsFree(roles: map<nat, Role>, hash: string, input: RoleInput)
    requires roles == D.Accounts(hash).roles.rows && input == RoleInput("Administrator", "root", "", ["*"])
    ensures ChangeRole(D.Accounts(hash), {}, 1, input).1.Ok?
  {
    TrimSpaceFixed("root");
    TrimSpaceFixed("Administrator");
    TrimSpaceFixed("*");
    D.DifferentLength("operator", "root");
  }
}
