/**
 Runs over all tables of the store. The methods of the store are its atomic steps, so
 a run is any sequence of their calls, however the services interleave.
 */
module StoreRuns {
  import opened Domain
  import opened Tables
  import A = Accounts
  import D = SeedData
  import K = KeyedTables
  import M = MenuStore

  datatype State = State(
    accounts: A.State, menus: Table<Menu>, dictionaries: Table<Dictionary>, settings: Table<Setting>)

  datatype Call =
    | CallAccounts(account: A.Call)
    | CallMenus(menu: M.Call)
    | CallDictionaries(dictionary: K.Call<Dictionary>)
    | CallSettings(setting: K.Call<Setting>)

  /** A call changes the table it is about, and no other. */
  ghost function After(s: State, call: Call): State {
    match call
    case CallAccounts(c) => s.(accounts := A.After(s.accounts, c))
    case CallMenus(c) => s.(menus := M.After(s.menus, c))
    case CallDictionaries(c) =>
      s.(dictionaries := K.After(s.dictionaries, K.DICTIONARY_CODE, K.NUMBERED_DICTIONARY, c))
    case CallSettings(c) => s.(settings := K.After(s.settings, K.SETTING_KEY, K.NUMBERED_SETTING, c))
  }

  ghost function AfterAll(s: State, calls: seq<Call>): State
    decreases |calls|
  {
    if calls == [] then s else After(AfterAll(s, calls[..|calls| - 1]), calls[|calls| - 1])
  }

  /** What `MemoryStore.Store.Valid` says of the tables: unique keys, IDs below their
      counters, and a forest of menus. */
  ghost predicate Valid(s: State) {
    && A.Valid(s.accounts)
    && M.Valid(s.menus)
    && K.KeyedValid(s.dictionaries, K.DICTIONARY_ID, K.DICTIONARY_CODE)
    && K.KeyedValid(s.settings, K.SETTING_ID, K.SETTING_KEY)
  }

  ghost predicate NeverReusesAny(s: State, s': State) {
    && NeverReuses(s.accounts.users, s'.accounts.users)
    && NeverReuses(s.accounts.roles, s'.accounts.roles)
    && NeverReuses(s.menus, s'.menus)
    && NeverReuses(s.dictionaries, s'.dictionaries)
    && NeverReuses(s.settings, s'.settings)
  }

  lemma CallKeepsValid(s: State, call: Call)
    requires Valid(s)
    ensures Valid(After(s, call))
  {
    match call
    case CallAccounts(c) => A.CallKeepsValid(s.accounts, c);
    case CallMenus(c) => M.CallKeepsValid(s.menus, c);
    case CallDictionaries(c) =>
      K.CallKeepsValid(s.dictionaries, K.DICTIONARY_ID, K.DICTIONARY_CODE, K.NUMBERED_DICTIONARY, c);
    case CallSettings(c) => K.CallKeepsValid(s.settings, K.SETTING_ID, K.SETTING_KEY, K.NUMBERED_SETTING, c);
  }

  lemma CallNeverReuses(s: State, call: Call)
    ensures NeverReusesAny(s, After(s, call))
  {
    match call
    case CallAccounts(c) => A.CallNeverReuses(s.accounts, c);
    case CallMenus(c) =>
    case CallDictionaries(c) =>
    case CallSettings(c) =>
  }

  /** Every run keeps every table valid. */
  lemma {:induction false} EveryRunKeepsValid(s: State, calls: seq<Call>)
    requires Valid(s)
    ensures Valid(AfterAll(s, calls))
    decreases |calls|
  {
    if calls != [] {
      var before := calls[..|calls| - 1];
      EveryRunKeepsValid(s, before);
      CallKeepsValid(AfterAll(s, before), calls[|calls| - 1]);
    }
  }

  /** No run gives an ID of any table out twice. */
  lemma {:induction false} NoIDIsReused(s: State, calls: seq<Call>)
    ensures NeverReusesAny(s, AfterAll(s, calls))
    decreases |calls|
  {
    if calls != [] {
      var before := calls[..|calls| - 1];
      NoIDIsReused(s, before);
      CallNeverReuses(AfterAll(s, before), calls[|calls| - 1]);
    }
  }

  ghost function Seeded(hash: string): State {
    State(D.Accounts(hash), Table(10, D.MenuRows(9)), D.Dictionaries(), D.Settings())
  }

  lemma SeededIsValid(hash: string)
    ensures Valid(Seeded(hash))
  {
    D.AccountsSound(hash);
    D.MenusValid();
    D.KeyedTablesValid();
  }

  /** In every state that a seeded store can reach, login names, e-mail addresses, telephone
      numbers, role codes, menu names, dictionary codes and setting keys are pairwise
      different, IDs are below their counters and the menus are a forest; and whatever the
      store goes on to do, IDs that are gone stay gone. */
  lemma EveryReachableState(hash: string, calls: seq<Call>, more: seq<Call>)
    ensures Valid(AfterAll(Seeded(hash), calls))
    ensures NeverReusesAny(AfterAll(Seeded(hash), calls), AfterAll(AfterAll(Seeded(hash), calls), more))
  {
    SeededIsValid(hash);
    EveryRunKeepsValid(Seeded(hash), calls);
    NoIDIsReused(AfterAll(Seeded(hash), calls), more);
  }
}
