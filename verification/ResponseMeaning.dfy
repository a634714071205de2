/**
 What the response check refuses, read off the data and the lists of the schemas: it
 throws exactly when some object that the schemas lead to shows one of the faults.
 */
module ResponseMeaning {
  import opened Domain
  import opened ResponseContract

  // -------------------------------------------------------------- the single faults

  /** The value is not of the type the schema names; a name that is no JSON type fits no value. */
  ghost predicate WrongType(value: Json, expected: string) {
    || (expected == "string" && !value.Str?)
    || (expected == "boolean" && !value.Bool?)
    || (expected == "number" && (!value.Number? || !value.finite))
    || (expected == "array" && !value.Array?)
    || (expected == "object" && !value.Object?)
    || (expected != "string" && expected != "boolean" && expected != "number" && expected != "array" &&
        expected != "object")
  }

  /** The object has the field with a value that is not null. */
  ghost predicate Holds(fields: map<string, Json>, field: string) {
    field in fields && fields[field] != Null
  }

  ghost predicate MissesField(s: Schema, fields: map<string, Json>) {
    exists f | f in s.required :: f !in fields
  }

  ghost predicate MistypedField(s: Schema, fields: map<string, Json>) {
    exists f, t | (f, t) in s.fieldTypes :: Holds(fields, f) && WrongType(fields[f], t)
  }

  ghost predicate OutsideEnum(s: Schema, fields: map<string, Json>) {
    exists f, allowed | (f, allowed) in s.enumValues ::
      Holds(fields, f) && forall v | v in allowed :: fields[f] != Str(v)
  }

  ghost predicate NotAList(s: Schema, fields: map<string, Json>) {
    || (exists f, t | (f, t) in s.arrayItemTypes :: Holds(fields, f) && !fields[f].Array?)
    || (exists f, t | (f, t) in s.arrayScalarItemTypes :: Holds(fields, f) && !fields[f].Array?)
  }

  ghost predicate MistypedItem(s: Schema, fields: map<string, Json>) {
    exists f, t | (f, t) in s.arrayScalarItemTypes ::
      Holds(fields, f) && fields[f].Array? && exists x | x in fields[f].items :: WrongType(x, t)
  }

  ghost predicate Faulty(s: Schema, data: Json) {
    || !data.Object?
    || MissesField(s, data.fields)
    || MistypedField(s, data.fields)
    || OutsideEnum(s, data.fields)
    || NotAList(s, data.fields)
    || MistypedItem(s, data.fields)
  }

  lemma MatchesTypeMeaning(value: Json, expected: string)
    ensures MatchesType(value, expected) <==> !WrongType(value, expected)
  {
  }

  lemma LocalMeaning(schemas: Schemas, data: Json, name: string)
    requires name in schemas
    ensures LocalOk(schemas, data, name) <==> !Faulty(schemas[name], data)
  {
    forall v, t ensures MatchesType(v, t) <==> !WrongType(v, t) {
      MatchesTypeMeaning(v, t);
    }
    if data.Object? {
      var s, fields := schemas[name], data.fields;
      FieldsMeaning(s, data);
      EnumsMeaning(s, data);
      ListsMeaning(s, data);
    }
  }

  lemma FieldsMeaning(s: Schema, data: Json)
    requires data.Object?
    ensures (forall e | e in s.fieldTypes :: Absent(data, e.0) || MatchesType(data.fields[e.0], e.1)) <==>
      !MistypedField(s, data.fields)
  {
    forall f, t | (f, t) in s.fieldTypes && Holds(data.fields, f)
      ensures MatchesType(data.fields[f], t) <==> !WrongType(data.fields[f], t)
    {
      MatchesTypeMeaning(data.fields[f], t);
    }
    if !MistypedField(s, data.fields) {
      forall e | e in s.fieldTypes ensures Absent(data, e.0) || MatchesType(data.fields[e.0], e.1) {
        var (f, t) := e;
        assert (f, t) in s.fieldTypes;
      }
    }
  }

  lemma EnumsMeaning(s: Schema, data: Json)
    requires data.Object?
    ensures (forall e | e in s.enumValues ::
      Absent(data, e.0) || (data.fields[e.0].Str? && data.fields[e.0].text in e.1)) <==>
      !OutsideEnum(s, data.fields)
  {
    if !OutsideEnum(s, data.fields) {
      forall e | e in s.enumValues
        ensures Absent(data, e.0) || (data.fields[e.0].Str? && data.fields[e.0].text in e.1)
      {
        var (f, allowed) := e;
        assert (f, allowed) in s.enumValues;
      }
    }
  }

  lemma ListsMeaning(s: Schema, data: Json)
    requires data.Object?
    ensures
      (forall e | e in s.arrayItemTypes :: Absent(data, e.0) || data.fields[e.0].Array?) &&
      (forall e | e in s.arrayScalarItemTypes :: Absent(data, e.0) ||
        (data.fields[e.0].Array? && forall x | x in data.fields[e.0].items :: MatchesType(x, e.1))) <==>
      !NotAList(s, data.fields) && !MistypedItem(s, data.fields)
  {
    forall v, t ensures MatchesType(v, t) <==> !WrongType(v, t) {
      MatchesTypeMeaning(v, t);
    }
    if !NotAList(s, data.fields) && !MistypedItem(s, data.fields) {
      forall e | e in s.arrayItemTypes ensures Absent(data, e.0) || data.fields[e.0].Array? {
        var (f, t) := e;
        assert (f, t) in s.arrayItemTypes;
      }
      forall e | e in s.arrayScalarItemTypes ensures Absent(data, e.0) ||
        (data.fields[e.0].Array? && forall x | x in data.fields[e.0].items :: MatchesType(x, e.1))
      {
        var (f, t) := e;
        assert (f, t) in s.arrayScalarItemTypes;
      }
    }
  }

  // ------------------------------------------------------------------ what is visited

  /** A value and the name of the schema it is held against. */
  datatype Stop = Stop(data: Json, name: string)

  /** The second stop is a part of the first one's object for which its schema names an object
      schema: a field's value that is not null, or an item of an array. */
  ghost predicate LeadsTo(schemas: Schemas, a: Stop, b: Stop) {
    && a.data.Object? && a.name in schemas && b.name in schemas && schemas[b.name].kind == "object"
    && ((exists f | (f, b.name) in schemas[a.name].objectFieldTypes ::
           Holds(a.data.fields, f) && a.data.fields[f] == b.data) ||
        (exists f | (f, b.name) in schemas[a.name].arrayItemTypes ::
           Holds(a.data.fields, f) && a.data.fields[f].Array? && b.data in a.data.fields[f].items))
  }

  ghost predicate IsTrail(schemas: Schemas, trail: seq<Stop>) {
    && (forall stop | stop in trail :: stop.name in schemas)
    && (forall i | 0 < i < |trail| :: LeadsTo(schemas, trail[i - 1], trail[i]))
  }

  /** Some trail of parts from here ends at a fault. */
  ghost predicate LeadsToFault(schemas: Schemas, data: Json, name: string) {
    exists trail: seq<Stop> | IsTrail(schemas, trail) && trail != [] ::
      trail[0] == Stop(data, name) && EndsFaulty(schemas, trail)
  }

  ghost predicate EndsFaulty(schemas: Schemas, trail: seq<Stop>)
    requires IsTrail(schemas, trail) && trail != []
  {
    var end := trail[|trail| - 1];
    assert end in trail;
    Faulty(schemas[end.name], end.data)
  }

  ghost predicate Checks(schemas: Schemas, stop: Stop) {
    CheckObject(schemas, stop.data, stop.name)
  }

  lemma ChecksLead(schemas: Schemas, a: Stop, b: Stop)
    requires Checks(schemas, a) && LeadsTo(schemas, a, b)
    ensures Checks(schemas, b)
  {
  }

  lemma {:induction false} ChecksAlong(schemas: Schemas, trail: seq<Stop>, i: nat)
    requires IsTrail(schemas, trail) && i < |trail| && Checks(schemas, trail[0])
    ensures Checks(schemas, trail[i])
  {
    if i > 0 {
      ChecksAlong(schemas, trail, i - 1);
      ChecksLead(schemas, trail[i - 1], trail[i]);
    }
  }

  lemma CheckedLeadsToNoFault(schemas: Schemas, data: Json, name: string)
    requires CheckObject(schemas, data, name)
    ensures !LeadsToFault(schemas, data, name)
  {
    if LeadsToFault(schemas, data, name) {
      var trail: seq<Stop> :| IsTrail(schemas, trail) && trail != [] && trail[0] == Stop(data, name) &&
        EndsFaulty(schemas, trail);
      ChecksAlong(schemas, trail, |trail| - 1);
      var end := trail[|trail| - 1];
      LocalMeaning(schemas, end.data, end.name);
    }
  }

  lemma FaultBelow(schemas: Schemas, a: Stop, b: Stop)
    requires a.name in schemas && LeadsTo(schemas, a, b) && LeadsToFault(schemas, b.data, b.name)
    ensures LeadsToFault(schemas, a.data, a.name)
  {
    var trail: seq<Stop> :| IsTrail(schemas, trail) && trail != [] && trail[0] == Stop(b.data, b.name) &&
      EndsFaulty(schemas, trail);
    var longer := [a] + trail;
    forall i | 0 < i < |longer| ensures LeadsTo(schemas, longer[i - 1], longer[i]) {
      if i > 1 {
        assert longer[i - 1] == trail[i - 2] && longer[i] == trail[i - 1];
      }
    }
    assert longer[|longer| - 1] == trail[|trail| - 1];
    assert EndsFaulty(schemas, longer);
  }

  lemma {:induction false} FaultlessIsChecked(schemas: Schemas, data: Json, name: string)
    requires name in schemas && !LeadsToFault(schemas, data, name)
    ensures CheckObject(schemas, data, name)
    decreases data
  {
    FaultlessHere(schemas, data, name);
    var schema, here := schemas[name], Stop(data, name);
    forall e | e in schema.objectFieldTypes && !Absent(data, e.0) && IsObjectSchema(schemas, e.1)
      ensures CheckObject(schemas, data.fields[e.0], e.1)
    {
      PartLeads(schemas, data, name, e.0, e.1);
      FaultlessIsChecked(schemas, data.fields[e.0], e.1);
    }
    forall e, x | e in schema.arrayItemTypes && !Absent(data, e.0) && IsObjectSchema(schemas, e.1) &&
        x in data.fields[e.0].items
      ensures CheckObject(schemas, x, e.1)
    {
      ItemLeads(schemas, data, name, e.0, e.1, x);
      FaultlessIsChecked(schemas, x, e.1);
    }
  }

  lemma FaultlessHere(schemas: Schemas, data: Json, name: string)
    requires name in schemas && !LeadsToFault(schemas, data, name)
    ensures LocalOk(schemas, data, name)
  {
    var trail := [Stop(data, name)];
    assert IsTrail(schemas, trail);
    LocalMeaning(schemas, data, name);
    assert EndsFaulty(schemas, trail) <==> Faulty(schemas[name], data);
  }

  lemma PartLeads(schemas: Schemas, data: Json, name: string, f: string, target: string)
    requires data.Object? && name in schemas && target in schemas && schemas[target].kind == "object"
    requires (f, target) in schemas[name].objectFieldTypes && f in data.fields && data.fields[f] != Null
    requires !LeadsToFault(schemas, data, name)
    ensures !LeadsToFault(schemas, data.fields[f], target)
  {
    var a, b := Stop(data, name), Stop(data.fields[f], target);
    assert LeadsTo(schemas, a, b);
    if LeadsToFault(schemas, b.data, b.name) {
      FaultBelow(schemas, a, b);
    }
  }

  lemma ItemLeads(schemas: Schemas, data: Json, name: string, f: string, target: string, x: Json)
    requires data.Object? && name in schemas && target in schemas && schemas[target].kind == "object"
    requires (f, target) in schemas[name].arrayItemTypes && f in data.fields
    requires data.fields[f].Array? && x in data.fields[f].items
    requires !LeadsToFault(schemas, data, name)
    ensures !LeadsToFault(schemas, x, target)
  {
    var a, b := Stop(data, name), Stop(x, target);
    assert LeadsTo(schemas, a, b);
    if LeadsToFault(schemas, b.data, b.name) {
      FaultBelow(schemas, a, b);
    }
  }

  // ------------------------------------------------------------------------ the theorem

  /** The check of an object throws exactly when some object the schemas lead to is faulty. */
  lemma ObjectRefusedExactly(schemas: Schemas, data: Json, name: string)
    requires name in schemas
    ensures !CheckObject(schemas, data, name) <==> LeadsToFault(schemas, data, name)
  {
    if CheckObject(schemas, data, name) {
      CheckedLeadsToNoFault(schemas, data, name);
    } else if !LeadsToFault(schemas, data, name) {
      FaultlessIsChecked(schemas, data, name);
    }
  }

  /** The check of a response throws exactly for an unknown schema; for data that is no array
      under an array schema, or holds an item that leads to a fault when items are objects; and
      for data that leads to a fault under an object schema. */
  lemma ResponseRefusedExactly(schemas: Schemas, data: Json, name: string)
    ensures !CheckResponse(schemas, data, name) <==>
      || name !in schemas
      || (schemas[name].kind == "array" && !data.Array?)
      || (schemas[name].kind == "array" && data.Array? && exists target |
            target in schemas && schemas[name].itemType == Some(target) && schemas[target].kind == "object" ::
            exists x | x in data.items :: LeadsToFault(schemas, x, target))
      || (schemas[name].kind == "object" && LeadsToFault(schemas, data, name))
  {
    if name in schemas {
      ObjectRefusedExactly(schemas, data, name);
      if data.Array? && schemas[name].itemType.Some? && schemas[name].itemType.value in schemas {
        forall x | x in data.items {
          ObjectRefusedExactly(schemas, x, schemas[name].itemType.value);
        }
      }
    }
  }

  // ------------------------------------------------------------ menus across the wire

  function NumberAt(fields: map<string, Json>, key: string): int {
    if key in fields && fields[key].Number? then fields[key].value.Floor else 0
  }

  function IDAt(fields: map<string, Json>, key: string): nat {
    if NumberAt(fields, key) < 0 then 0 else NumberAt(fields, key)
  }

  function TextAt(fields: map<string, Json>, key: string): string {
    if key in fields && fields[key].Str? then fields[key].text else ""
  }

  /** The menu an object stands for: its fields by their names in the API. */
  function ReadMenu(data: Json): Menu
    requires data.Object?
    decreases data
  {
    var fields := data.fields;
    Menu(IDAt(fields, "id"), IDAt(fields, "parent_id"), TextAt(fields, "title"), TextAt(fields, "name"),
         TextAt(fields, "path"), TextAt(fields, "icon"), TextAt(fields, "component"),
         TextAt(fields, "permission"), NumberAt(fields, "sort"),
         "hidden" in fields && fields["hidden"] == Bool(true),
         if "children" in fields && fields["children"].Array? then ReadMenus(fields["children"].items) else [])
  }

  function ReadMenus(items: seq<Json>): seq<Menu>
    decreases items
  {
    if items == [] then []
    else (if items[0].Object? then [ReadMenu(items[0])] else []) + ReadMenus(items[1..])
  }

  /** The object shows the fields of the menu, children aside. */
  ghost predicate Shows(fields: map<string, Json>, m: Menu) {
    && IDAt(fields, "id") == m.id && IDAt(fields, "parent_id") == m.parentID && TextAt(fields, "title") == m.title
    && TextAt(fields, "name") == m.name && TextAt(fields, "path") == m.path && TextAt(fields, "icon") == m.icon
    && TextAt(fields, "component") == m.component && TextAt(fields, "permission") == m.permission
    && NumberAt(fields, "sort") == m.sort
    && (m.hidden <==> "hidden" in fields && fields["hidden"] == Bool(true))
  }

  lemma EncodedFields(m: Menu)
    ensures Shows(MenuJson(m).fields, m)
  {
    forall i | 0 <= i < 10
      ensures MenuEntries(m)[i].0 in MenuJson(m).fields
      ensures MenuJson(m).fields[MenuEntries(m)[i].0] == MenuEntries(m)[i].1
    {
      MenuField(m, i);
    }
    var fields, e := MenuJson(m).fields, MenuEntries(m);
    assert e[0].0 == "id" && e[1].0 == "parent_id" && e[2].0 == "title" && e[3].0 == "name" && e[4].0 == "path";
    assert e[5].0 == "icon" && e[6].0 == "component" && e[7].0 == "permission" && e[8].0 == "sort";
    assert e[9].0 == "hidden";
  }

  /** Reading the encoding of a menu gives the menu back, with everything below it. */
  lemma {:induction false} EncodedMenuReadsBack(m: Menu)
    ensures ReadMenu(MenuJson(m)) == m
  {
    EncodedFields(m);
    MenuFieldMatches(m, 10);
    EncodedMenusReadBack(m.children);
  }

  lemma {:induction false} EncodedMenusReadBack(ms: seq<Menu>)
    ensures ReadMenus(MenusJson(ms)) == ms
  {
    if ms != [] {
      EncodedMenuReadsBack(ms[0]);
      EncodedMenusReadBack(ms[1..]);
      assert MenusJson(ms)[1..] == MenusJson(ms[1..]);
    }
  }
}
