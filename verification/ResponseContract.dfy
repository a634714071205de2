/**
 The front end's check of response data against the schema table. The table's
 schemas refer to each other in cycles (`Menu.children` holds `Menu`s); the check
 recurses over the data and so ends on every JSON value.
 */
module ResponseContract {
  import opened Domain

  /** What `JSON.parse` returns. A number too large for a double is not finite. */
  datatype Json =
    | Null
    | Bool(flag: bool)
    | Number(value: real, finite: bool)
    | Str(text: string)
    | Array(items: seq<Json>)
    | Object(fields: map<string, Json>)

  /** One entry of `openApiSchemas`; the parts an entry leaves out are empty lists. */
  datatype Schema = Schema(
    kind: string,
    required: seq<string>,
    fieldTypes: seq<(string, string)>,
    enumValues: seq<(string, seq<string>)>,
    objectFieldTypes: seq<(string, string)>,
    arrayItemTypes: seq<(string, string)>,
    arrayScalarItemTypes: seq<(string, string)>,
    itemType: Option<string>)

  type Schemas = map<string, Schema>

  predicate MatchesType(value: Json, expected: string) {
    if expected == "array" then value.Array?
    else if expected == "object" then value.Object?
    else if expected == "number" then value.Number? && value.finite
    else (expected == "string" && value.Str?) || (expected == "boolean" && value.Bool?)
  }

  /** The field is missing or null, so its checks are skipped. */
  predicate Absent(data: Json, field: string)
    requires data.Object?
  {
    field !in data.fields || data.fields[field].Null?
  }

  predicate IsObjectSchema(schemas: Schemas, name: string) {
    name in schemas && schemas[name].kind == "object"
  }

  /** The checks of `assertObjectResponseContract` that look at one object only. */
  predicate LocalOk(schemas: Schemas, data: Json, name: string) {
    data.Object? && name in schemas &&
    var schema := schemas[name];
    && (forall f | f in schema.required :: f in data.fields)
    && (forall e | e in schema.fieldTypes :: Absent(data, e.0) || MatchesType(data.fields[e.0], e.1))
    && (forall e | e in schema.enumValues ::
          Absent(data, e.0) || (data.fields[e.0].Str? && data.fields[e.0].text in e.1))
    && (forall e | e in schema.arrayItemTypes :: Absent(data, e.0) || data.fields[e.0].Array?)
    && (forall e | e in schema.arrayScalarItemTypes :: Absent(data, e.0) ||
          (data.fields[e.0].Array? && forall x | x in data.fields[e.0].items :: MatchesType(x, e.1)))
  }

  /** `assertObjectResponseContract` returns without throwing. */
  predicate CheckObject(schemas: Schemas, data: Json, name: string)
    decreases data
  {
    LocalOk(schemas, data, name) &&
    var schema := schemas[name];
    && (forall e | e in schema.objectFieldTypes ::
          Absent(data, e.0) || (IsObjectSchema(schemas, e.1) ==> CheckObject(schemas, data.fields[e.0], e.1)))
    && (forall e | e in schema.arrayItemTypes :: Absent(data, e.0) ||
          (IsObjectSchema(schemas, e.1) ==>
            forall x | x in data.fields[e.0].items :: CheckObject(schemas, x, e.1)))
  }

  /** `validateResponseSchema` returns without throwing. */
  predicate CheckResponse(schemas: Schemas, data: Json, name: string) {
    name in schemas &&
    var schema := schemas[name];
    if schema.kind == "array" then
      data.Array? &&
      (schema.itemType.Some? && IsObjectSchema(schemas, schema.itemType.value) ==>
        forall x | x in data.items :: CheckObject(schemas, x, schema.itemType.value))
    else schema.kind == "object" ==> CheckObject(schemas, data, name)
  }

  // ------------------------------------------------------------------ the relation

  /** A step from an object into one of its parts, with the schema the part must have. */
  datatype Step =
    | Field(field: string, target: string)
    | Item(field: string, index: nat, target: string)

  ghost predicate CanStep(schemas: Schemas, data: Json, name: string, step: Step) {
    data.Object? && name in schemas && IsObjectSchema(schemas, step.target) &&
    !Absent(data, step.field) &&
    match step
    case Field(f, target) => (f, target) in schemas[name].objectFieldTypes
    case Item(f, i, target) =>
      (f, target) in schemas[name].arrayItemTypes &&
      data.fields[f].Array? && i < |data.fields[f].items|
  }

  ghost function Part(schemas: Schemas, data: Json, name: string, step: Step): (part: Json)
    requires CanStep(schemas, data, name, step)
    ensures part < data
  {
    match step
    case Field(f, _) => data.fields[f]
    case Item(f, i, _) =>
      assert data.fields[f].items[i] < data.fields[f];
      data.fields[f].items[i]
  }

  /** Following the path through the data as the schemas lead meets `part`, to be checked
      against `target`. */
  ghost predicate Visits(schemas: Schemas, data: Json, name: string, path: seq<Step>, part: Json, target: string)
    decreases |path|
  {
    if path == [] then part == data && target == name
    else
      CanStep(schemas, data, name, path[0]) &&
      Visits(schemas, Part(schemas, data, name, path[0]), path[0].target, path[1..], part, target)
  }

  /** Every object the schemas lead to is fine by itself. */
  ghost predicate Conforms(schemas: Schemas, data: Json, name: string) {
    forall path, part, target :: Visits(schemas, data, name, path, part, target) ==> LocalOk(schemas, part, target)
  }

  lemma {:induction false} CheckedPartsAreOk(schemas: Schemas, data: Json, name: string, path: seq<Step>, part: Json,
                                             target: string)
    requires CheckObject(schemas, data, name) && Visits(schemas, data, name, path, part, target)
    ensures LocalOk(schemas, part, target)
    decreases |path|
  {
    if path != [] {
      CheckedPartsAreOk(schemas, Part(schemas, data, name, path[0]), path[0].target, path[1..], part, target);
    }
  }

  lemma PartConforms(schemas: Schemas, data: Json, name: string, step: Step)
    requires Conforms(schemas, data, name) && CanStep(schemas, data, name, step)
    ensures Conforms(schemas, Part(schemas, data, name, step), step.target)
  {
    var inner := Part(schemas, data, name, step);
    forall path, part, target | Visits(schemas, inner, step.target, path, part, target)
      ensures LocalOk(schemas, part, target)
    {
      assert ([step] + path)[1..] == path;
      assert Visits(schemas, data, name, [step] + path, part, target);
    }
  }

  lemma {:induction false} ConformingIsAccepted(schemas: Schemas, data: Json, name: string)
    requires Conforms(schemas, data, name)
    ensures CheckObject(schemas, data, name)
    decreases data
  {
    assert Visits(schemas, data, name, [], data, name);
    var schema := schemas[name];
    forall e | e in schema.objectFieldTypes && !Absent(data, e.0) && IsObjectSchema(schemas, e.1)
      ensures CheckObject(schemas, data.fields[e.0], e.1)
    {
      var step := Field(e.0, e.1);
      PartConforms(schemas, data, name, step);
      ConformingIsAccepted(schemas, Part(schemas, data, name, step), e.1);
    }
    forall e, x | e in schema.arrayItemTypes && !Absent(data, e.0) && IsObjectSchema(schemas, e.1) &&
        x in data.fields[e.0].items
      ensures CheckObject(schemas, x, e.1)
    {
      var i :| 0 <= i < |data.fields[e.0].items| && data.fields[e.0].items[i] == x;
      var step := Item(e.0, i, e.1);
      PartConforms(schemas, data, name, step);
      ConformingIsAccepted(schemas, Part(schemas, data, name, step), e.1);
    }
  }

  /** The check accepts an object exactly when everything the schemas lead to is fine. */
  lemma CheckIsConformance(schemas: Schemas, data: Json, name: string)
    ensures CheckObject(schemas, data, name) <==> Conforms(schemas, data, name)
  {
    if CheckObject(schemas, data, name) {
      forall path, part, target | Visits(schemas, data, name, path, part, target)
        ensures LocalOk(schemas, part, target)
      {
        CheckedPartsAreOk(schemas, data, name, path, part, target);
      }
    }
    if Conforms(schemas, data, name) {
      ConformingIsAccepted(schemas, data, name);
    }
  }

  /** What a response must be: an object schema asks for a conforming object, an array schema
      for an array whose items conform to its item schema, and other schemas for nothing. */
  ghost predicate ConformsToResponse(schemas: Schemas, data: Json, name: string) {
    name in schemas &&
    var schema := schemas[name];
    && (schema.kind == "object" ==> Conforms(schemas, data, name))
    && (schema.kind == "array" ==> data.Array?)
    && (schema.kind == "array" && schema.itemType.Some? && IsObjectSchema(schemas, schema.itemType.value) ==>
          forall x | x in data.items :: Conforms(schemas, x, schema.itemType.value))
  }

  /** The checker returns without throwing exactly for the responses that conform. */
  lemma ResponseCheckIsConformance(schemas: Schemas, data: Json, name: string)
    ensures CheckResponse(schemas, data, name) <==> ConformsToResponse(schemas, data, name)
  {
    CheckIsConformance(schemas, data, name);
    if name in schemas && data.Array? && schemas[name].itemType.Some? {
      forall x | x in data.items {
        CheckIsConformance(schemas, x, schemas[name].itemType.value);
      }
    }
  }

  // -------------------------------------------------------- what the server sends

  /** The table's entry for `Menu`. */
  const MENU_SCHEMA := Schema("object",
    ["id", "parent_id", "title", "name", "path", "icon", "component", "permission", "sort", "hidden"],
    [("id", "number"), ("parent_id", "number"), ("title", "string"), ("name", "string"), ("path", "string"),
     ("icon", "string"), ("component", "string"), ("permission", "string"), ("sort", "number"),
     ("hidden", "boolean"), ("children", "array")],
    [], [], [("children", "Menu")], [], None)

  const MENU_LIST_SCHEMA := Schema("array", [], [], [], [], [], [], Some("Menu"))

  /** The object with these entries. */
  function ObjectOf(entries: seq<(string, Json)>): map<string, Json> {
    if entries == [] then map[]
    else ObjectOf(entries[..|entries| - 1])[entries[|entries| - 1].0 := entries[|entries| - 1].1]
  }

  /** The server's JSON encoding of a menu; an empty `children` is omitted. */
  function MenuEntries(m: Menu): seq<(string, Json)>
    decreases m, 0
  {
    [("id", Number(m.id as real, true)), ("parent_id", Number(m.parentID as real, true)),
     ("title", Str(m.title)), ("name", Str(m.name)), ("path", Str(m.path)), ("icon", Str(m.icon)),
     ("component", Str(m.component)), ("permission", Str(m.permission)),
     ("sort", Number(m.sort as real, true)), ("hidden", Bool(m.hidden))] +
    (if m.children == [] then [] else [("children", Array(MenusJson(m.children)))])
  }

  function MenuJson(m: Menu): Json
    decreases m, 1
  {
    Object(ObjectOf(MenuEntries(m)))
  }

  function MenusJson(ms: seq<Menu>): seq<Json> {
    if ms == [] then [] else [MenuJson(ms[0])] + MenusJson(ms[1..])
  }

  ghost predicate HasMenuSchemas(schemas: Schemas) {
    && "Menu" in schemas && schemas["Menu"] == MENU_SCHEMA
    && "MenuList" in schemas && schemas["MenuList"] == MENU_LIST_SCHEMA
  }

  lemma {:induction false} ObjectKeys(entries: seq<(string, Json)>, k: string)
    ensures k in ObjectOf(entries) <==> exists i | 0 <= i < |entries| :: entries[i].0 == k
  {
    if entries != [] {
      ObjectKeys(entries[..|entries| - 1], k);
    }
  }

  lemma {:induction false} ObjectAt(entries: seq<(string, Json)>, i: nat)
    requires i < |entries| && forall j | i < j < |entries| :: entries[j].0 != entries[i].0
    ensures entries[i].0 in ObjectOf(entries) && ObjectOf(entries)[entries[i].0] == entries[i].1
  {
    if i < |entries| - 1 {
      ObjectAt(entries[..|entries| - 1], i);
    }
  }

  lemma MenuKeysDiffer(m: Menu, i: nat, j: nat)
    requires i < j < |MenuEntries(m)|
    ensures MenuEntries(m)[i].0 != MenuEntries(m)[j].0
  {
  }

  lemma MenuField(m: Menu, i: nat)
    requires i < |MenuEntries(m)|
    ensures var e := MenuEntries(m)[i]; var o := ObjectOf(MenuEntries(m));
      e.0 in o && o[e.0] == e.1
  {
    forall j | i < j < |MenuEntries(m)| ensures MenuEntries(m)[j].0 != MenuEntries(m)[i].0 {
      MenuKeysDiffer(m, i, j);
    }
    ObjectAt(MenuEntries(m), i);
  }

  lemma MenuEntriesFollowSchema(m: Menu, i: nat)
    requires i < |MenuEntries(m)|
    ensures |MenuEntries(m)| <= |MENU_SCHEMA.fieldTypes|
    ensures MenuEntries(m)[i].0 == MENU_SCHEMA.fieldTypes[i].0
    ensures MatchesType(MenuEntries(m)[i].1, MENU_SCHEMA.fieldTypes[i].1)
    ensures i < 10 ==> MenuEntries(m)[i].0 == MENU_SCHEMA.required[i]
  {
  }

  lemma MenuLocalOk(schemas: Schemas, m: Menu)
    requires HasMenuSchemas(schemas)
    ensures LocalOk(schemas, MenuJson(m), "Menu")
  {
    var data := MenuJson(m);
    forall f | f in MENU_SCHEMA.required ensures f in data.fields {
      var i :| 0 <= i < 10 && MENU_SCHEMA.required[i] == f;
      MenuEntriesFollowSchema(m, i);
      MenuField(m, i);
    }
    forall e | e in MENU_SCHEMA.fieldTypes ensures Absent(data, e.0) || MatchesType(data.fields[e.0], e.1) {
      var i :| 0 <= i < 11 && MENU_SCHEMA.fieldTypes[i] == e;
      MenuFieldMatches(m, i);
    }
    MenuFieldMatches(m, 10);
  }

  lemma MenuFieldMatches(m: Menu, i: nat)
    requires i < |MENU_SCHEMA.fieldTypes|
    ensures var e := MENU_SCHEMA.fieldTypes[i];
      Absent(MenuJson(m), e.0) || MatchesType(MenuJson(m).fields[e.0], e.1)
    ensures i == 10 ==>
      if m.children == [] then "children" !in MenuJson(m).fields
      else "children" in MenuJson(m).fields && MenuJson(m).fields["children"] == Array(MenusJson(m.children))
  {
    if i < |MenuEntries(m)| {
      MenuEntriesFollowSchema(m, i);
      MenuField(m, i);
    } else {
      ObjectKeys(MenuEntries(m), "children");
      forall k | 0 <= k < 10 ensures MenuEntries(m)[k].0 != "children" {
      }
    }
  }

  lemma {:induction false} MenuAccepted(schemas: Schemas, m: Menu)
    requires HasMenuSchemas(schemas)
    ensures CheckObject(schemas, MenuJson(m), "Menu")
  {
    MenusAccepted(schemas, m.children);
    MenuLocalOk(schemas, m);
    MenuFieldMatches(m, 10);
  }

  lemma {:induction false} MenusAccepted(schemas: Schemas, ms: seq<Menu>)
    requires HasMenuSchemas(schemas)
    ensures forall x | x in MenusJson(ms) :: CheckObject(schemas, x, "Menu")
  {
    if ms != [] {
      MenuAccepted(schemas, ms[0]);
      MenusAccepted(schemas, ms[1..]);
    }
  }

  /** Whatever forest the server lists, the front end accepts its encoding. */
  lemma ListedMenusAccepted(schemas: Schemas, forest: seq<Menu>)
    requires HasMenuSchemas(schemas)
    ensures CheckResponse(schemas, Array(MenusJson(forest)), "MenuList")
  {
    MenusAccepted(schemas, forest);
  }
}
