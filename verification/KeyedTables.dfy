/** The dictionary and setting tables: rows with one unique key. */
module KeyedTables {
  import opened Domain
  import opened Tables
  import opened Text

  const DICTIONARY_ID := (d: Dictionary) => d.id
  const DICTIONARY_CODE := (d: Dictionary) => d.code
  const SETTING_ID := (s: Setting) => s.id
  const SETTING_KEY := (s: Setting) => s.key

  /** Stores `row`, which carries the next ID. */
  ghost function CreateKeyed<T(!new)>(t: Table<T>, keyOf: T -> string, row: T): (Table<T>, Result<T>) {
    if KeyTaken(t.rows, keyOf, 0, keyOf(row)) then (t, Err(Conflict))
    else (Table(t.next + 1, t.rows[t.next := row]), Ok(row))
  }

  ghost function UpdateKeyed<T(!new)>(t: Table<T>, keyOf: T -> string, id: nat, row: T): (Table<T>, Result<T>) {
    if id !in t.rows then (t, Err(NotFound))
    else if KeyTaken(t.rows, keyOf, id, keyOf(row)) then (t, Err(Conflict))
    else (t.(rows := t.rows[id := row]), Ok(row))
  }

  function DeleteKeyed<T>(t: Table<T>, id: nat): (Table<T>, Result<()>) {
    if id !in t.rows then (t, Err(NotFound)) else (t.(rows := t.rows - {id}), Ok(()))
  }

  ghost predicate KeyedValid<T(!new)>(t: Table<T>, idOf: T -> nat, keyOf: T -> string) {
    t.next > 0 && Numbered(t, idOf) && UniqueKeys(t.rows, keyOf)
  }

  lemma CreateKeyedKeepsValid<T(!new)>(t: Table<T>, idOf: T -> nat, keyOf: T -> string, row: T)
    requires KeyedValid(t, idOf, keyOf) && idOf(row) == t.next
    ensures KeyedValid(CreateKeyed(t, keyOf, row).0, idOf, keyOf)
  {
    if !KeyTaken(t.rows, keyOf, 0, keyOf(row)) {
      assert !KeyTaken(t.rows, keyOf, t.next, keyOf(row)) by {
        assert 0 !in t.rows;
      }
      WriteKeepsKeys(t.rows, keyOf, t.next, row);
      WriteKeepsNumbers(t, idOf, row);
    }
  }

  lemma UpdateKeyedKeepsValid<T(!new)>(t: Table<T>, idOf: T -> nat, keyOf: T -> string, id: nat, row: T)
    requires KeyedValid(t, idOf, keyOf) && idOf(row) == id
    ensures KeyedValid(UpdateKeyed(t, keyOf, id, row).0, idOf, keyOf)
    ensures KeyedValid(DeleteKeyed(t, id).0, idOf, keyOf)
  {
    if id in t.rows && !KeyTaken(t.rows, keyOf, id, keyOf(row)) {
      WriteKeepsKeys(t.rows, keyOf, id, row);
    }
  }

  // ----------------------------------------------------------------------- runs

  const NUMBERED_DICTIONARY := (d: Dictionary, id: nat) => d.(id := id)
  const NUMBERED_SETTING := (s: Setting, id: nat) => s.(id := id)

  datatype Call<T> = CreateRow(row: T) | UpdateRow(id: nat, row: T) | DeleteRow(id: nat)

  /** The table after a store call; `numbered` gives a row its ID. */
  ghost function After<T(!new)>(t: Table<T>, keyOf: T -> string, numbered: (T, nat) -> T, call: Call<T>): Table<T> {
    match call
    case CreateRow(row) => CreateKeyed(t, keyOf, numbered(row, t.next)).0
    case UpdateRow(id, row) => UpdateKeyed(t, keyOf, id, numbered(row, id)).0
    case DeleteRow(id) => DeleteKeyed(t, id).0
  }

  ghost function AfterAll<T(!new)>(t: Table<T>, keyOf: T -> string, numbered: (T, nat) -> T, calls: seq<Call<T>>)
    : Table<T>
    decreases |calls|
  {
    if calls == [] then t
    else After(AfterAll(t, keyOf, numbered, calls[..|calls| - 1]), keyOf, numbered, calls[|calls| - 1])
  }

  lemma CallKeepsValid<T(!new)>(t: Table<T>, idOf: T -> nat, keyOf: T -> string, numbered: (T, nat) -> T,
                                call: Call<T>)
    requires KeyedValid(t, idOf, keyOf) && forall x, id :: idOf(numbered(x, id)) == id
    ensures KeyedValid(After(t, keyOf, numbered, call), idOf, keyOf)
  {
    match call
    case CreateRow(row) => CreateKeyedKeepsValid(t, idOf, keyOf, numbered(row, t.next));
    case UpdateRow(id, row) => UpdateKeyedKeepsValid(t, idOf, keyOf, id, numbered(row, id));
    case DeleteRow(id) =>
  }

  /** Every run of store calls keeps keys pairwise different and IDs below the counter. */
  lemma {:induction false} EveryRunKeepsValid<T(!new)>(
    t: Table<T>, idOf: T -> nat, keyOf: T -> string, numbered: (T, nat) -> T, calls: seq<Call<T>>)
    requires KeyedValid(t, idOf, keyOf) && forall x, id :: idOf(numbered(x, id)) == id
    ensures KeyedValid(AfterAll(t, keyOf, numbered, calls), idOf, keyOf)
    decreases |calls|
  {
    if calls != [] {
      var before := calls[..|calls| - 1];
      EveryRunKeepsValid(t, idOf, keyOf, numbered, before);
      CallKeepsValid(AfterAll(t, keyOf, numbered, before), idOf, keyOf, numbered, calls[|calls| - 1]);
    }
  }

  /** No run gives an ID out twice. */
  lemma {:induction false} NoIDIsReused<T(!new)>(t: Table<T>, keyOf: T -> string, numbered: (T, nat) -> T,
                                                 calls: seq<Call<T>>)
    ensures NeverReuses(t, AfterAll(t, keyOf, numbered, calls))
    decreases |calls|
  {
    if calls != [] {
      NoIDIsReused(t, keyOf, numbered, calls[..|calls| - 1]);
    }
  }

  /** A key names at most one row, whatever order a search takes. */
  lemma KeyNamesOne<T(!new)>(t: Table<T>, idOf: T -> nat, keyOf: T -> string, i: nat, j: nat, key: string)
    requires KeyedValid(t, idOf, keyOf) && i in t.rows && j in t.rows
    requires EqualFold(keyOf(t.rows[i]), key) && EqualFold(keyOf(t.rows[j]), key)
    ensures i == j
  {
    assert i != j ==> !EqualFold(keyOf(t.rows[i]), keyOf(t.rows[j]));
  }
}
