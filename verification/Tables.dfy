/** A table of the store: rows by ID, and the counter the next ID comes from. */
module Tables {
  import opened Text

  datatype Table<T> = Table(next: nat, rows: map<nat, T>)

  ghost predicate Numbered<T(!new)>(t: Table<T>, idOf: T -> nat) {
    forall id | id in t.rows :: 0 < id < t.next && idOf(t.rows[id]) == id
  }

  /** Whether another row than `ignore` has the key, up to case folding. */
  ghost predicate KeyTaken<T(!new)>(rows: map<nat, T>, keyOf: T -> string, ignore: nat, key: string) {
    exists id | id in rows :: id != ignore && EqualFold(keyOf(rows[id]), key)
  }

  ghost predicate UniqueKeys<T(!new)>(rows: map<nat, T>, keyOf: T -> string) {
    forall i, j | i in rows && j in rows && i != j :: !EqualFold(keyOf(rows[i]), keyOf(rows[j]))
  }

  /** From `t` to `t'` the counter does not go down, and no ID below it comes back that is
      not in use: an ID is never given out twice. */
  ghost predicate NeverReuses<T>(t: Table<T>, t': Table<T>) {
    t.next <= t'.next && forall id | id < t.next && id !in t.rows :: id !in t'.rows
  }

  /** Writing a row whose key no other row has keeps the keys unique. */
  lemma WriteKeepsKeys<T(!new)>(rows: map<nat, T>, keyOf: T -> string, id: nat, row: T)
    requires UniqueKeys(rows, keyOf) && !KeyTaken(rows, keyOf, id, keyOf(row))
    ensures UniqueKeys(rows[id := row], keyOf)
  {
  }

  lemma WriteKeepsNumbers<T(!new)>(t: Table<T>, idOf: T -> nat, row: T)
    requires Numbered(t, idOf) && idOf(row) == t.next && t.next > 0
    ensures Numbered(Table(t.next + 1, t.rows[t.next := row]), idOf)
  {
  }
}
