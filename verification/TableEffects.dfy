/**
 What the calls on menus, dictionaries and settings answer and write, field by field.
 */
module TableEffects {
  import opened Domain
  import opened Tables
  import opened Text
  import opened MenuMeaning
  import opened SystemServices
  import M = MenuStore
  import K = KeyedTables

  /** A row was added under the next ID. */
  ghost predicate Added<T(!new)>(t: Table<T>, t': Table<T>) {
    && t'.next == t.next + 1 && t.next !in t.rows && t'.rows.Keys == t.rows.Keys + {t.next}
    && forall k | k in t.rows :: t'.rows[k] == t.rows[k]
  }

  /** Only row `id` was rewritten. */
  ghost predicate Rewritten<T(!new)>(t: Table<T>, t': Table<T>, id: nat) {
    && t'.next == t.next && id in t.rows && t'.rows.Keys == t.rows.Keys
    && forall k | k in t.rows && k != id :: t'.rows[k] == t.rows[k]
  }

  /** Only row `id` was removed. */
  ghost predicate Removed<T(!new)>(t: Table<T>, t': Table<T>, id: nat) {
    && t'.next == t.next && id in t.rows && t'.rows.Keys == t.rows.Keys - {id}
    && forall k | k in t.rows && k != id :: t'.rows[k] == t.rows[k]
  }

  // ---------------------------------------------------------------------------- menus

  ghost predicate NameInUse(t: Table<Menu>, id: nat, name: string) {
    exists k | k in t.rows && k != id :: EqualFold(t.rows[k].name, name)
  }

  lemma NameMeaning(t: Table<Menu>, id: nat, name: string)
    ensures KeyTaken(t.rows, M.MENU_NAME, id, name) <==> NameInUse(t, id, name)
  {
  }

  /** `CreateMenu` of the store: the error, or the menu under the next ID and without children. */
  lemma CreateMenuEffect(t: Table<Menu>, menu: Menu)
    requires M.Valid(t)
    ensures var (t', r) := M.Create(t, menu);
      if NameInUse(t, 0, menu.name) then r == Err(Conflict) && t' == t
      else if menu.parentID != 0 && menu.parentID !in t.rows then r == Err(NotFound) && t' == t
      else
        Added(t, t') && r == Ok(t'.rows[t.next]) &&
        SameFields(t'.rows[t.next], menu.(id := t.next)) && t'.rows[t.next].children == []
  {
    NameMeaning(t, 0, menu.name);
    assert t.next !in t.rows;
  }

  ghost predicate StepsUp(t: Table<Menu>, way: seq<nat>, i: nat)
    requires i + 1 < |way|
  {
    way[i] in t.rows && t.rows[way[i]].parentID == way[i + 1]
  }

  /** Each menu of the way is stored and followed by its parent. */
  ghost predicate IsWay(t: Table<Menu>, way: seq<nat>) {
    forall i | 0 <= i < |way| - 1 :: StepsUp(t, way, i)
  }

  /** Going up from `menu`, by one parent or more, one meets `ancestor`. */
  ghost predicate HasAbove(t: Table<Menu>, menu: nat, ancestor: nat) {
    exists way: seq<nat> :: |way| > 1 && way[0] == menu && way[|way| - 1] == ancestor && IsWay(t, way)
  }

  lemma {:induction false} WayClimbs(t: Table<Menu>, way: seq<nat>)
    requires way != [] && IsWay(t, way)
    ensures M.Climbs(t.rows, way[0], way[|way| - 1], |way| - 1)
    decreases |way|
  {
    if |way| > 1 {
      var up := way[1..];
      assert StepsUp(t, way, 0);
      forall i | 0 <= i < |up| - 1 ensures StepsUp(t, up, i) {
        assert StepsUp(t, way, i + 1);
      }
      WayClimbs(t, up);
    }
  }

  lemma {:induction false} ClimbHasWay(t: Table<Menu>, from: nat, to: nat, n: nat) returns (way: seq<nat>)
    requires M.Climbs(t.rows, from, to, n)
    ensures |way| == n + 1 && way[0] == from && way[n] == to && IsWay(t, way)
    decreases n
  {
    if n == 0 {
      way := [from];
    } else {
      var rest := ClimbHasWay(t, t.rows[from].parentID, to, n - 1);
      way := [from] + rest;
      forall i | 0 <= i < |way| - 1 ensures StepsUp(t, way, i) {
        assert i > 0 ==> StepsUp(t, rest, i - 1);
      }
    }
  }

  lemma AboveMeaning(t: Table<Menu>, menu: nat, ancestor: nat)
    ensures M.HasAncestor(t.rows, menu, ancestor) <==> HasAbove(t, menu, ancestor)
  {
    if M.HasAncestor(t.rows, menu, ancestor) {
      var n: nat :| n > 0 && M.Climbs(t.rows, menu, ancestor, n);
      var way := ClimbHasWay(t, menu, ancestor, n);
      assert |way| > 1 && IsWay(t, way);
    }
    if HasAbove(t, menu, ancestor) {
      var way: seq<nat> :| |way| > 1 && way[0] == menu && way[|way| - 1] == ancestor && IsWay(t, way);
      WayClimbs(t, way);
    }
  }

  /** `UpdateMenu` of the store: the error, or the nine fields of the update under the old ID;
      refused are unknown parents, the menu itself, and menus below it. */
  lemma UpdateMenuEffect(t: Table<Menu>, id: nat, update: Menu)
    ensures var (t', r) := M.Update(t, id, update);
      if id !in t.rows then r == Err(NotFound) && t' == t
      else if NameInUse(t, id, update.name) then r == Err(Conflict) && t' == t
      else if update.parentID != 0 && update.parentID !in t.rows then r == Err(NotFound) && t' == t
      else if update.parentID != 0 && (update.parentID == id || HasAbove(t, update.parentID, id)) then
        r == Err(Conflict) && t' == t
      else
        Rewritten(t, t', id) && r == Ok(t'.rows[id]) &&
        SameFields(t'.rows[id], update.(id := t.rows[id].id)) && t'.rows[id].children == t.rows[id].children
  {
    NameMeaning(t, id, update.name);
    AboveMeaning(t, update.parentID, id);
  }

  /** `DeleteMenu`: the error, or the menu is gone; a menu some menu names as its parent stays. */
  lemma DeleteMenuEffect(t: Table<Menu>, id: nat)
    ensures var (t', r) := M.Delete(t, id);
      if id !in t.rows then r == Err(NotFound) && t' == t
      else if exists k | k in t.rows :: t.rows[k].parentID == id then r == Err(Conflict) && t' == t
      else r == Ok(()) && Removed(t, t', id)
  {
  }

  ghost predicate NoSlashFirst(path: string) {
    TrimSpace(path) == "" || TrimSpace(path)[0] != '/'
  }

  ghost function InvalidMenuFields(known: set<string>, input: MenuInput): seq<string> {
    (if TrimSpace(input.title) == "" then ["title"] else []) + (if TrimSpace(input.name) == "" then ["name"] else []) +
    (if NoSlashFirst(input.path) then ["path"] else []) +
    (if TrimSpace(input.permission) != "" && TrimSpace(input.permission) !in known then ["permission"] else [])
  }

  /** The menu has the input's text trimmed, and the rest as given. */
  ghost predicate HasMenuInput(m: Menu, input: MenuInput) {
    && m.parentID == input.parentID && m.title == TrimSpace(input.title) && m.name == TrimSpace(input.name)
    && m.path == TrimSpace(input.path) && m.icon == TrimSpace(input.icon)
    && m.component == TrimSpace(input.component) && m.permission == TrimSpace(input.permission)
    && m.sort == input.sort && m.hidden == input.hidden
  }

  /** `normalizeMenuInput`: a title, a name, a path from the root, and a registered permission or
      none; every other input is refused with the failing fields. */
  lemma MenuInputMeaning(known: set<string>, input: MenuInput)
    ensures var r := MenuFrom(known, input);
      if InvalidMenuFields(known, input) != [] then r == Err(Validation(InvalidMenuFields(known, input)))
      else r.Ok? && HasMenuInput(r.value, input)
  {
    var path := TrimSpace(input.path);
    assert HasPrefix(path, "/") <==> path != "" && path[0] == '/' by {
      if path != "" {
        assert path[..1] == [path[0]];
      }
    }
  }

  /** A permission is registered when it is the trimmed code of a definition of the catalog, or of
      a built-in one when the catalog is empty. */
  lemma RegisteredMeaning(service: SystemService, permission: string)
    ensures var catalog := if |service.catalog| == 0 then service.builtIn else service.catalog;
      permission in service.Known() <==> permission != "" && exists d | d in catalog :: TrimSpace(d.code) == permission
  {
  }

  /** In a valid table no two menus have names that fold to the same, IDs are below the counter, and
      from every menu a way along stored parents leads to 0. */
  lemma ValidMenusMeaning(t: Table<Menu>)
    requires M.Valid(t)
    ensures forall id | id in t.rows :: 0 < id < t.next && t.rows[id].id == id && HasAbove(t, id, 0)
    ensures forall i, j | i in t.rows && j in t.rows && i != j :: !EqualFold(t.rows[i].name, t.rows[j].name)
  {
    forall id | id in t.rows ensures 0 < id < t.next && t.rows[id].id == id && HasAbove(t, id, 0) {
      assert M.MENU_ID(t.rows[id]) == id;
      var n: nat :| M.Climbs(t.rows, id, 0, n);
      assert M.HasAncestor(t.rows, id, 0);
      AboveMeaning(t, id, 0);
    }
    forall i, j | i in t.rows && j in t.rows && i != j ensures !EqualFold(t.rows[i].name, t.rows[j].name) {
      assert !EqualFold(M.MENU_NAME(t.rows[i]), M.MENU_NAME(t.rows[j]));
    }
  }

  // --------------------------------------------------------- dictionaries and settings

  ghost predicate DictionaryCodeInUse(t: Table<Dictionary>, id: nat, code: string) {
    exists k | k in t.rows && k != id :: EqualFold(t.rows[k].code, code)
  }

  ghost predicate IsDictionary(row: Dictionary, id: nat, d: Dictionary) {
    row.id == id && row.code == d.code && row.name == d.name && row.items == d.items
  }

  /** Creating and updating a dictionary: the error, or the given row under its ID. */
  lemma DictionaryEffects(t: Table<Dictionary>, id: nat, d: Dictionary)
    requires K.KeyedValid(t, K.DICTIONARY_ID, K.DICTIONARY_CODE)
    ensures var (t', r) := K.CreateKeyed(t, K.DICTIONARY_CODE, d.(id := t.next));
      if DictionaryCodeInUse(t, 0, d.code) then r == Err(Conflict) && t' == t
      else Added(t, t') && r == Ok(t'.rows[t.next]) && IsDictionary(t'.rows[t.next], t.next, d)
    ensures var (t', r) := K.UpdateKeyed(t, K.DICTIONARY_CODE, id, d.(id := id));
      if id !in t.rows then r == Err(NotFound) && t' == t
      else if DictionaryCodeInUse(t, id, d.code) then r == Err(Conflict) && t' == t
      else Rewritten(t, t', id) && r == Ok(t'.rows[id]) && IsDictionary(t'.rows[id], id, d)
  {
    assert t.next !in t.rows;
  }

  ghost predicate SettingKeyInUse(t: Table<Setting>, id: nat, key: string) {
    exists k | k in t.rows && k != id :: EqualFold(t.rows[k].key, key)
  }

  ghost predicate IsSetting(row: Setting, id: nat, s: Setting) {
    row.id == id && row.key == s.key && row.value == s.value && row.description == s.description
  }

  /** Creating and updating a setting: the error, or the given row under its ID. */
  lemma SettingEffects(t: Table<Setting>, id: nat, s: Setting)
    requires K.KeyedValid(t, K.SETTING_ID, K.SETTING_KEY)
    ensures var (t', r) := K.CreateKeyed(t, K.SETTING_KEY, s.(id := t.next));
      if SettingKeyInUse(t, 0, s.key) then r == Err(Conflict) && t' == t
      else Added(t, t') && r == Ok(t'.rows[t.next]) && IsSetting(t'.rows[t.next], t.next, s)
    ensures var (t', r) := K.UpdateKeyed(t, K.SETTING_KEY, id, s.(id := id));
      if id !in t.rows then r == Err(NotFound) && t' == t
      else if SettingKeyInUse(t, id, s.key) then r == Err(Conflict) && t' == t
      else Rewritten(t, t', id) && r == Ok(t'.rows[id]) && IsSetting(t'.rows[id], id, s)
  {
    assert t.next !in t.rows;
  }

  lemma DeletionEffect<T(!new)>(t: Table<T>, id: nat)
    ensures var (t', r) := K.DeleteKeyed(t, id);
      if id !in t.rows then r == Err(NotFound) && t' == t
      else r == Ok(()) && Removed(t, t', id)
  {
  }
}
