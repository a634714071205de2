/**
 The menu table of the store: parent pointers edited by Create, Update and
 Delete. Every one of them keeps the table a finite forest.
 */
module MenuStore {
  import opened Domain
  import opened Tables
  import opened Text

  type Rows = map<nat, Menu>

  const MENU_ID := (m: Menu) => m.id
  const MENU_NAME := (m: Menu) => m.name

  /** Following `n` parent pointers from `from` leads to `to`; all menus on the way are stored. */
  ghost predicate Climbs(rows: Rows, from: nat, to: nat, n: nat)
    decreases n
  {
    if n == 0 then from == to
    else from in rows && Climbs(rows, rows[from].parentID, to, n - 1)
  }

  ghost predicate HasAncestor(rows: Rows, menu: nat, ancestor: nat) {
    exists n: nat :: n > 0 && Climbs(rows, menu, ancestor, n)
  }

  /** Following parents from any menu reaches 0. */
  ghost predicate Grounded(rows: Rows) {
    forall id | id in rows :: exists n: nat :: Climbs(rows, id, 0, n)
  }

  ghost predicate IsForest(t: Table<Menu>) {
    Numbered(t, MENU_ID) && Grounded(t.rows)
  }

  ghost predicate Valid(t: Table<Menu>) {
    t.next > 0 && IsForest(t) && UniqueKeys(t.rows, MENU_NAME)
  }

  // -------------------------------------------------------------- the operations

  ghost function Create(t: Table<Menu>, menu: Menu): (Table<Menu>, Result<Menu>) {
    if KeyTaken(t.rows, MENU_NAME, 0, menu.name) then (t, Err(Conflict))
    else if menu.parentID != 0 && menu.parentID !in t.rows then (t, Err(NotFound))
    else
      var row := menu.(id := t.next, children := []);
      (Table(t.next + 1, t.rows[t.next := row]), Ok(row))
  }

  /** The stored menu after an update: ID and stored children stay. */
  function Updated(menu: Menu, update: Menu): Menu {
    update.(id := menu.id, children := menu.children)
  }

  ghost function UpdateError(rows: Rows, id: nat, update: Menu): Option<Error> {
    if id !in rows then Some(NotFound)
    else if KeyTaken(rows, MENU_NAME, id, update.name) then Some(Conflict)
    else if update.parentID != 0 && update.parentID !in rows then Some(NotFound)
    else if update.parentID != 0 && (update.parentID == id || HasAncestor(rows, update.parentID, id))
    then Some(Conflict)
    else None
  }

  ghost function Update(t: Table<Menu>, id: nat, update: Menu): (Table<Menu>, Result<Menu>) {
    var e := UpdateError(t.rows, id, update);
    if e.Some? then (t, Err(e.value))
    else
      var row := Updated(t.rows[id], update);
      (t.(rows := t.rows[id := row]), Ok(row))
  }

  ghost function Delete(t: Table<Menu>, id: nat): (Table<Menu>, Result<()>) {
    if id !in t.rows then (t, Err(NotFound))
    else if exists k | k in t.rows :: t.rows[k].parentID == id then (t, Err(Conflict))
    else (t.(rows := t.rows - {id}), Ok(()))
  }

  // ------------------------------------------------------------ climbing lemmas

  lemma {:induction false} ClimbsUnchanged(rows: Rows, rows': Rows, from: nat, to: nat, n: nat)
    requires Climbs(rows, from, to, n)
    requires forall k | k in rows :: k in rows' && rows'[k].parentID == rows[k].parentID
    ensures Climbs(rows', from, to, n)
    decreases n
  {
    if n > 0 {
      ClimbsUnchanged(rows, rows', rows[from].parentID, to, n - 1);
    }
  }

  lemma {:induction false} ClimbsCompose(rows: Rows, a: nat, b: nat, c: nat, m: nat, n: nat)
    requires Climbs(rows, a, b, m) && Climbs(rows, b, c, n)
    ensures Climbs(rows, a, c, m + n)
    decreases m
  {
    if m > 0 {
      ClimbsCompose(rows, rows[a].parentID, b, c, m - 1, n);
    }
  }

  /** In a forest a menu's parent is stored, or 0. */
  lemma ParentStored(t: Table<Menu>, id: nat)
    requires IsForest(t) && id in t.rows
    ensures t.rows[id].parentID == 0 || t.rows[id].parentID in t.rows
  {
    var n: nat :| Climbs(t.rows, id, 0, n);
    assert Climbs(t.rows, t.rows[id].parentID, 0, n - 1);
  }

  /** The height of a menu over 0 is unique. */
  lemma {:induction false} ClimbsUnique(rows: Rows, from: nat, m: nat, n: nat)
    requires 0 !in rows && Climbs(rows, from, 0, m) && Climbs(rows, from, 0, n)
    ensures m == n
    decreases n
  {
    if m > 0 && n > 0 {
      ClimbsUnique(rows, rows[from].parentID, m - 1, n - 1);
    }
  }

  /** No menu of a forest is its own ancestor. */
  lemma NoCycle(t: Table<Menu>, id: nat)
    requires IsForest(t) && id in t.rows
    ensures !HasAncestor(t.rows, id, id)
  {
    if HasAncestor(t.rows, id, id) {
      var c: nat :| c > 0 && Climbs(t.rows, id, id, c);
      var n: nat :| Climbs(t.rows, id, 0, n);
      ClimbsCompose(t.rows, id, id, 0, c, n);
      ClimbsUnique(t.rows, id, n, c + n);
    }
  }

  // ------------------------------------------------------- every write keeps it

  lemma CreateKeepsValid(t: Table<Menu>, menu: Menu)
    requires Valid(t)
    ensures Valid(Create(t, menu).0)
  {
    var (t', r) := Create(t, menu);
    if r.Ok? {
      WriteKeepsKeys(t.rows, MENU_NAME, t.next, r.value);
      WriteKeepsNumbers(t, MENU_ID, r.value);
      forall id | id in t'.rows ensures exists n: nat :: Climbs(t'.rows, id, 0, n) {
        if id != t.next {
          var n: nat :| Climbs(t.rows, id, 0, n);
          ClimbsUnchanged(t.rows, t'.rows, id, 0, n);
        } else if menu.parentID == 0 {
          assert Climbs(t'.rows, id, 0, 1);
        } else {
          var n: nat :| Climbs(t.rows, menu.parentID, 0, n);
          ClimbsUnchanged(t.rows, t'.rows, menu.parentID, 0, n);
          assert Climbs(t'.rows, id, 0, n + 1);
        }
      }
    }
  }

  /** A climb that does not meet the rewritten menu is still there afterwards. */
  lemma {:induction false} ClimbsPast(rows: Rows, id: nat, row: Menu, from: nat, n: nat)
    requires Climbs(rows, from, 0, n) && id != 0
    requires from != id && !HasAncestor(rows, from, id)
    ensures Climbs(rows[id := row], from, 0, n)
    decreases n
  {
    if n > 0 {
      var p := rows[from].parentID;
      assert Climbs(rows, from, p, 1);
      forall k: nat | k > 0 && Climbs(rows, p, id, k) ensures false {
        ClimbsCompose(rows, from, p, id, 1, k);
      }
      ClimbsPast(rows, id, row, p, n - 1);
    }
  }

  /** When the rewritten menu is grounded, so is everything above which it stands. */
  lemma {:induction false} ClimbsVia(rows: Rows, id: nat, row: Menu, k: nat, from: nat, n: nat) returns (m: nat)
    requires Climbs(rows, from, 0, n) && Climbs(rows[id := row], id, 0, k)
    ensures Climbs(rows[id := row], from, 0, m)
    decreases n
  {
    if from == id {
      m := k;
    } else if n == 0 {
      m := 0;
    } else {
      m := ClimbsVia(rows, id, row, k, rows[from].parentID, n - 1);
      m := m + 1;
    }
  }

  lemma UpdateKeepsValid(t: Table<Menu>, id: nat, update: Menu)
    requires Valid(t)
    ensures Valid(Update(t, id, update).0)
  {
    var (t', r) := Update(t, id, update);
    if r.Ok? {
      var row, p := r.value, update.parentID;
      WriteKeepsKeys(t.rows, MENU_NAME, id, row);
      var k := 1;
      if p == 0 {
        assert Climbs(t'.rows, 0, 0, 0);
      } else {
        var n: nat :| Climbs(t.rows, p, 0, n);
        ClimbsPast(t.rows, id, row, p, n);
        k := n + 1;
      }
      assert Climbs(t'.rows, id, 0, k);
      forall x | x in t'.rows ensures exists m: nat :: Climbs(t'.rows, x, 0, m) {
        var n: nat :| Climbs(t.rows, x, 0, n);
        var m := ClimbsVia(t.rows, id, row, k, x, n);
      }
    }
  }

  lemma {:induction false} ClimbsWithout(rows: Rows, id: nat, from: nat, n: nat)
    requires Climbs(rows, from, 0, n) && from != id && id != 0
    requires forall k | k in rows :: rows[k].parentID != id
    ensures Climbs(rows - {id}, from, 0, n)
    decreases n
  {
    if n > 0 {
      ClimbsWithout(rows, id, rows[from].parentID, n - 1);
    }
  }

  lemma DeleteKeepsValid(t: Table<Menu>, id: nat)
    requires Valid(t)
    ensures Valid(Delete(t, id).0)
  {
    var (t', r) := Delete(t, id);
    if r.Ok? {
      forall x | x in t'.rows ensures exists n: nat :: Climbs(t'.rows, x, 0, n) {
        var n: nat :| Climbs(t.rows, x, 0, n);
        ClimbsWithout(t.rows, id, x, n);
      }
    }
  }

  /** A climb to the rewritten menu is, up to where it first arrives, still there afterwards. */
  lemma {:induction false} ClimbsStillTo(rows: Rows, id: nat, row: Menu, from: nat, n: nat) returns (m: nat)
    requires Climbs(rows, from, id, n)
    ensures Climbs(rows[id := row], from, id, m)
    decreases n
  {
    if from == id {
      m := 0;
    } else {
      m := ClimbsStillTo(rows, id, row, rows[from].parentID, n - 1);
      m := m + 1;
    }
  }

  /** With a free name and a stored parent, an update is refused exactly when the table
      would stop being a forest. */
  lemma UpdateRefusesExactlyCycles(t: Table<Menu>, id: nat, update: Menu)
    requires Valid(t) && id in t.rows && !KeyTaken(t.rows, MENU_NAME, id, update.name)
    requires update.parentID == 0 || update.parentID in t.rows
    ensures Update(t, id, update).1.Ok? <==> Grounded(t.rows[id := Updated(t.rows[id], update)])
  {
    var row, p := Updated(t.rows[id], update), update.parentID;
    var t' := t.(rows := t.rows[id := row]);
    UpdateKeepsValid(t, id, update);
    if Update(t, id, update).1.Err? {
      var n: nat :| Climbs(t.rows, p, id, n);
      var m := ClimbsStillTo(t.rows, id, row, p, n);
      assert Climbs(t'.rows, id, id, m + 1);
      assert HasAncestor(t'.rows, id, id);
      if Grounded(t'.rows) {
        NoCycle(t', id);
      }
    }
  }

  datatype Call = CallCreate(menu: Menu) | CallUpdate(id: nat, menu: Menu) | CallDelete(id: nat)

  ghost function After(t: Table<Menu>, call: Call): Table<Menu> {
    match call
    case CallCreate(menu) => Create(t, menu).0
    case CallUpdate(id, menu) => Update(t, id, menu).0
    case CallDelete(id) => Delete(t, id).0
  }

  ghost function AfterAll(t: Table<Menu>, calls: seq<Call>): Table<Menu>
    decreases |calls|
  {
    if calls == [] then t else After(AfterAll(t, calls[..|calls| - 1]), calls[|calls| - 1])
  }

  lemma CallKeepsValid(t: Table<Menu>, call: Call)
    requires Valid(t)
    ensures Valid(After(t, call))
  {
    match call
    case CallCreate(menu) => CreateKeepsValid(t, menu);
    case CallUpdate(id, menu) => UpdateKeepsValid(t, id, menu);
    case CallDelete(id) => DeleteKeepsValid(t, id);
  }

  /** Every run of store calls keeps the menus a finite forest: whatever services interleave
      their calls, each nonzero parent is stored, and following parents leads to 0. */
  lemma {:induction false} EveryRunKeepsForest(t: Table<Menu>, calls: seq<Call>)
    requires Valid(t)
    ensures Valid(AfterAll(t, calls))
    ensures forall id | id in AfterAll(t, calls).rows ::
      var p := AfterAll(t, calls).rows[id].parentID;
      p == 0 || p in AfterAll(t, calls).rows
    decreases |calls|
  {
    if calls != [] {
      var before, call := AfterAll(t, calls[..|calls| - 1]), calls[|calls| - 1];
      EveryRunKeepsForest(t, calls[..|calls| - 1]);
      CallKeepsValid(before, call);
    }
    var end := AfterAll(t, calls);
    forall id | id in end.rows ensures end.rows[id].parentID == 0 || end.rows[id].parentID in end.rows {
      ParentStored(end, id);
    }
  }

  /** No run gives an ID out twice. */
  lemma {:induction false} NoIDIsReused(t: Table<Menu>, calls: seq<Call>)
    ensures NeverReuses(t, AfterAll(t, calls))
    decreases |calls|
  {
    if calls != [] {
      NoIDIsReused(t, calls[..|calls| - 1]);
    }
  }

  // ------------------------------------------------------------ the SQL adapter

  /** The rows the recursive query adds in its `n`-th round: the candidate, then the
      stored parents of the rows before. */
  ghost function QueryRound(rows: Rows, candidate: nat, n: nat): set<nat> {
    if n == 0 then set k | k in rows && k == candidate
    else
      var before := QueryRound(rows, candidate, n - 1);
      set k | k in before && k in rows && rows[k].parentID in rows :: rows[k].parentID
  }

  ghost predicate QueryHasAncestor(rows: Rows, candidate: nat, ancestor: nat) {
    exists n: nat :: ancestor in QueryRound(rows, candidate, n)
  }

  /** `menuIDByName`: names are compared by `lower`, and a unique index keeps them different. */
  ghost predicate SqlNameTaken(rows: Rows, ignore: nat, name: string) {
    exists id | id in rows :: id != ignore && ToLower(rows[id].name) == ToLower(name)
  }

  /** What the two guards on the parent say, in the order of the SQL adapter. */
  ghost function SqlParentError(rows: Rows, id: nat, parentID: nat): Option<Error> {
    if parentID == id then Some(Conflict)
    else if parentID != 0 && parentID !in rows then Some(NotFound)
    else if parentID != 0 && QueryHasAncestor(rows, parentID, id) then Some(Conflict)
    else None
  }

  /** The guards of the SQL adapter's `UpdateMenu`; `registered` is whether the menu's permission
      is in the table of permissions. */
  ghost function SqlUpdateError(rows: Rows, id: nat, update: Menu, registered: bool): Option<Error> {
    if id !in rows then Some(NotFound)
    else if SqlNameTaken(rows, id, update.name) then Some(Conflict)
    else
      var parent := SqlParentError(rows, id, update.parentID);
      if parent.Some? then parent
      else if TrimSpace(update.permission) != "" && !registered then Some(InvalidReference)
      else None
  }

  /** Round `n` holds the stored menu reached by climbing `n` parents, if there is one. */
  lemma {:induction false} RoundIsClimb(rows: Rows, c: nat, a: nat, n: nat)
    ensures a in QueryRound(rows, c, n) <==> a in rows && ClimbsStored(rows, c, a, n)
    decreases n
  {
    if n > 0 {
      if a in QueryRound(rows, c, n) {
        var k :| k in QueryRound(rows, c, n - 1) && k in rows && rows[k].parentID == a;
        RoundIsClimb(rows, c, k, n - 1);
        ClimbOneMore(rows, c, k, n - 1);
      }
      if a in rows && ClimbsStored(rows, c, a, n) {
        var k := ClimbsLast(rows, c, a, n);
        RoundIsClimb(rows, c, k, n - 1);
      }
    }
  }

  /** A climb along stored menus, both ends included. */
  ghost predicate ClimbsStored(rows: Rows, from: nat, to: nat, n: nat) {
    to in rows && Climbs(rows, from, to, n)
  }

  lemma ClimbOneMore(rows: Rows, c: nat, k: nat, n: nat)
    requires ClimbsStored(rows, c, k, n)
    ensures Climbs(rows, c, rows[k].parentID, n + 1)
  {
    assert Climbs(rows, k, rows[k].parentID, 1);
    ClimbsCompose(rows, c, k, rows[k].parentID, n, 1);
  }

  /** The last stop of a climb before its end. */
  lemma {:induction false} ClimbsLast(rows: Rows, c: nat, a: nat, n: nat) returns (k: nat)
    requires n > 0 && Climbs(rows, c, a, n)
    ensures ClimbsStored(rows, c, k, n - 1) && rows[k].parentID == a
    decreases n
  {
    if n == 1 {
      k := c;
    } else {
      k := ClimbsLast(rows, rows[c].parentID, a, n - 1);
    }
  }

  /** The walk and the recursive query answer alike about any two different menus. */
  lemma WalkAgreesWithQuery(rows: Rows, candidate: nat, ancestor: nat)
    requires ancestor in rows && candidate != ancestor
    ensures HasAncestor(rows, candidate, ancestor) <==> QueryHasAncestor(rows, candidate, ancestor)
  {
    if HasAncestor(rows, candidate, ancestor) {
      var n: nat :| n > 0 && Climbs(rows, candidate, ancestor, n);
      RoundIsClimb(rows, candidate, ancestor, n);
    }
    if QueryHasAncestor(rows, candidate, ancestor) {
      var n: nat :| ancestor in QueryRound(rows, candidate, n);
      RoundIsClimb(rows, candidate, ancestor, n);
      assert n > 0;
    }
  }

  /** On a forest the recursive query runs dry, so it terminates. */
  lemma QueryRunsDry(t: Table<Menu>, candidate: nat)
    requires IsForest(t)
    ensures exists n: nat :: QueryRound(t.rows, candidate, n) == {}
  {
    if candidate in t.rows {
      var n: nat :| Climbs(t.rows, candidate, 0, n);
      forall a ensures a !in QueryRound(t.rows, candidate, n) {
        RoundIsClimb(t.rows, candidate, a, n);
        if a in QueryRound(t.rows, candidate, n) {
          SameClimbSameEnd(t.rows, candidate, a, 0, n);
        }
      }
      assert QueryRound(t.rows, candidate, n) == {};
    } else {
      assert QueryRound(t.rows, candidate, 0) == {};
    }
  }

  lemma {:induction false} SameClimbSameEnd(rows: Rows, c: nat, a: nat, b: nat, n: nat)
    requires Climbs(rows, c, a, n) && Climbs(rows, c, b, n)
    ensures a == b
    decreases n
  {
    if n > 0 {
      SameClimbSameEnd(rows, rows[c].parentID, a, b, n - 1);
    }
  }

  /** What the guards on the parent say in the memory store. */
  ghost function ParentError(rows: Rows, id: nat, parentID: nat): Option<Error> {
    if parentID != 0 && parentID !in rows then Some(NotFound)
    else if parentID != 0 && (parentID == id || HasAncestor(rows, parentID, id)) then Some(Conflict)
    else None
  }

  /** Both adapters refuse the same re-parentings, with the same error, though they check in
      different orders. */
  lemma ParentGuardsAgree(t: Table<Menu>, id: nat, parentID: nat)
    requires IsForest(t) && id in t.rows
    ensures SqlParentError(t.rows, id, parentID) == ParentError(t.rows, id, parentID)
  {
    if parentID != id {
      WalkAgreesWithQuery(t.rows, parentID, id);
    }
  }

  /** Both adapters take the same decision on an update, with the same error, exactly when the
      comparison of names makes no difference and the permission does not stand in the way. */
  lemma AdaptersAgreeExactly(t: Table<Menu>, id: nat, update: Menu, registered: bool)
    requires IsForest(t) && id in t.rows
    ensures var folded, lowered := KeyTaken(t.rows, MENU_NAME, id, update.name), SqlNameTaken(t.rows, id, update.name);
      var parent := ParentError(t.rows, id, update.parentID);
      SqlUpdateError(t.rows, id, update, registered) == UpdateError(t.rows, id, update) <==>
        (folded == lowered || parent == Some(Conflict)) &&
        (folded || lowered || parent.Some? || TrimSpace(update.permission) == "" || registered)
  {
    ParentGuardsAgree(t, id, update.parentID);
  }

  ghost predicate Ascii(s: string) {
    forall c | c in s :: c < '\U{80}'
  }

  lemma AsciiFoldsLow(s: string)
    requires Ascii(s)
    ensures ToLower(s) == Fold(s)
  {
    forall i | 0 <= i < |s| ensures ToLower(s)[i] == Fold(s)[i] {
      assert s[i] in s;
    }
  }

  /** In particular for ASCII names and a registered permission. */
  lemma AdaptersAgree(t: Table<Menu>, id: nat, update: Menu)
    requires IsForest(t) && Ascii(update.name) && forall k | k in t.rows :: Ascii(t.rows[k].name)
    ensures SqlUpdateError(t.rows, id, update, true) == UpdateError(t.rows, id, update)
  {
    if id in t.rows {
      AsciiFoldsLow(update.name);
      forall k | k in t.rows ensures EqualFold(MENU_NAME(t.rows[k]), update.name) <==>
        ToLower(t.rows[k].name) == ToLower(update.name)
      {
        AsciiFoldsLow(t.rows[k].name);
      }
      assert KeyTaken(t.rows, MENU_NAME, id, update.name) <==> SqlNameTaken(t.rows, id, update.name);
      AdaptersAgreeExactly(t, id, update, true);
    }
  }

  // Two menus of which the second is to be renamed.
  const MENU_S := Menu(1, 0, "S", "s", "/s", "", "", "", 1, false, [])
  const MENU_X := Menu(2, 0, "X", "x", "/x", "", "", "", 2, false, [])
  const TABLE_SX := Table(3, map[1 := MENU_S, 2 := MENU_X])

  lemma TableSXIsValid()
    ensures Valid(TABLE_SX)
  {
    assert Climbs(TABLE_SX.rows, 1, 0, 1) && Climbs(TABLE_SX.rows, 2, 0, 1);
    assert Fold("s")[0] != Fold("x")[0];
  }

  /** A character that folds to 's' but is lower case already, such as U+017F: memory takes it for
      the name "s", SQL does not. */
  lemma AdaptersMayDisagree(c: char)
    requires c >= '\U{80}' && FoldRune(c) == 's' && LowerRune(c) == c
    ensures Valid(TABLE_SX)
    ensures UpdateError(TABLE_SX.rows, 2, MENU_X.(name := [c])) == Some(Conflict)
    ensures SqlUpdateError(TABLE_SX.rows, 2, MENU_X.(name := [c]), true) == None
  {
    TableSXIsValid();
    assert Fold([c]) == Fold("s");
    assert EqualFold(MENU_NAME(TABLE_SX.rows[1]), [c]);
    assert ToLower("s")[0] != ToLower([c])[0];
  }
}
