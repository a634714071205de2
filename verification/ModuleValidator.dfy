/** `ValidateModules`: two passes and a last look, with a map of what has been seen for every kind
    of key, against the rules. */
module ModuleValidator {
  import opened Domain
  import opened Text
  import opened ModuleRules

  /** A key with the name of the module it belongs to. */
  type Seen = map<string, string>

  // ------------------------------------------------------------- collecting keys

  function KeySet(keys: seq<string>): set<string> { set k | k in keys }

  /** None of the keys has been seen, and none comes twice. */
  ghost predicate Fresh(seen: set<string>, keys: seq<string>) {
    Different(keys) && forall k | k in keys :: k !in seen
  }

  function Added(seen: Seen, keys: seq<string>, owner: string): Seen {
    if keys == [] then seen else Added(seen, keys[..|keys| - 1], owner)[keys[|keys| - 1] := owner]
  }

  lemma {:induction false} AddedKeys(seen: Seen, keys: seq<string>, owner: string)
    ensures Added(seen, keys, owner).Keys == seen.Keys + KeySet(keys)
    ensures forall k | k in keys :: Added(seen, keys, owner)[k] == owner
    ensures forall k | k in seen && k !in keys :: Added(seen, keys, owner)[k] == seen[k]
  {
    if keys != [] {
      AddedKeys(seen, keys[..|keys| - 1], owner);
      assert keys == keys[..|keys| - 1] + [keys[|keys| - 1]];
    }
  }

  /** What a loop over the keys of one module has reached. */
  ghost predicate Collected(seen: Seen, now: Seen, keys: seq<string>, owner: string) {
    Fresh(seen.Keys, keys) && now == Added(seen, keys, owner)
  }

  lemma CollectStep(seen: Seen, now: Seen, keys: seq<string>, k: string, owner: string)
    requires Collected(seen, now, keys, owner)
    ensures k in now ==> !Fresh(seen.Keys, keys + [k])
    ensures k !in now ==> Collected(seen, now[k := owner], keys + [k], owner)
  {
    AddedKeys(seen, keys, owner);
    var more := keys + [k];
    assert more[|keys|] == k && more[..|keys|] == keys;
    if k in keys {
      var i :| 0 <= i < |keys| && keys[i] == k;
      assert more[i] == more[|keys|];
    } else {
      assert k in more;
    }
  }

  lemma FreshPrefix(seen: set<string>, keys: seq<string>, n: nat)
    requires n <= |keys| && Fresh(seen, keys)
    ensures Fresh(seen, keys[..n])
  {
    forall k | k in keys[..n] ensures k !in seen {
      assert k in keys;
    }
  }

  lemma DuplicateFound(seen: set<string>, keys: seq<string>, n: nat)
    requires n <= |keys| && !Fresh(seen, keys[..n])
    ensures !Fresh(seen, keys)
  {
    if Fresh(seen, keys) {
      FreshPrefix(seen, keys, n);
    }
  }

  /** `requireUnique`: a blank key is let through unseen. */
  method RequireUnique(seen: Seen, key: string, owner: string) returns (ok: bool, now: Seen)
    ensures var k := TrimSpace(key);
      if k == "" then ok && now == seen
      else if k in seen then !ok && now == seen
      else ok && now == seen[k := owner]
  {
    var k := TrimSpace(key);
    if k == "" {
      return true, seen;
    }
    if k in seen {
      return false, seen;
    }
    return true, seen[k := owner];
  }

  /** `requireUnique` on the next of a module's keys. */
  method CollectKey(ghost seen: Seen, now: Seen, ghost keys: seq<string>, ghost i: nat, key: string, owner: string)
    returns (ok: bool, now': Seen)
    requires i < |keys| && Collected(seen, now, keys[..i], owner)
    requires TrimSpace(key) == keys[i] != ""
    ensures ok ==> Collected(seen, now', keys[..i + 1], owner)
    ensures !ok ==> !Fresh(seen.Keys, keys)
  {
    assert keys[..i + 1] == keys[..i] + [keys[i]];
    CollectStep(seen, now, keys[..i], keys[i], owner);
    ok, now' := RequireUnique(now, key, owner);
    if !ok {
      DuplicateFound(seen.Keys, keys, i + 1);
    }
  }

  /** `requireUnique` on the next key of two kinds. */
  method CollectTwo(ghost seenA: Seen, nowA: Seen, ghost keysA: seq<string>, keyA: string,
                    ghost seenB: Seen, nowB: Seen, ghost keysB: seq<string>, keyB: string,
                    ghost i: nat, owner: string)
    returns (ok: bool, nowA': Seen, nowB': Seen)
    requires i < |keysA| && Collected(seenA, nowA, keysA[..i], owner) && TrimSpace(keyA) == keysA[i] != ""
    requires i < |keysB| && Collected(seenB, nowB, keysB[..i], owner) && TrimSpace(keyB) == keysB[i] != ""
    ensures ok ==> Collected(seenA, nowA', keysA[..i + 1], owner) && Collected(seenB, nowB', keysB[..i + 1], owner)
    ensures !ok ==> !Fresh(seenA.Keys, keysA) || !Fresh(seenB.Keys, keysB)
  {
    nowB' := nowB;
    ok, nowA' := CollectKey(seenA, nowA, keysA, i, keyA, owner);
    if !ok {
      return;
    }
    ok, nowB' := CollectKey(seenB, nowB, keysB, i, keyB, owner);
  }

  /** `requireOwnedPermission`, and the same test for a parent menu. */
  predicate RequireOwned(known: Seen, key: string, expected: string) {
    var k := TrimSpace(key);
    k == "" || (k in known && known[k] == expected)
  }

  // ------------------------------------------------------- keys over all modules

  function AddedAll(mods: seq<Module>, keys: Module -> seq<string>): Seen {
    if mods == [] then map[]
    else
      var last := mods[|mods| - 1];
      Added(AddedAll(mods[..|mods| - 1], keys), keys(last), last.name)
  }

  ghost predicate CollectedAll(now: Seen, mods: seq<Module>, keys: Module -> seq<string>) {
    Different(All(mods, keys)) && now == AddedAll(mods, keys)
  }

  lemma {:induction false} AddedAllKeys(mods: seq<Module>, keys: Module -> seq<string>)
    ensures AddedAll(mods, keys).Keys == KeySet(All(mods, keys))
  {
    if mods != [] {
      var rest, last := mods[..|mods| - 1], mods[|mods| - 1];
      AddedAllKeys(rest, keys);
      AddedKeys(AddedAll(rest, keys), keys(last), last.name);
    }
  }

  lemma DifferentConcat(a: seq<string>, b: seq<string>)
    ensures Different(a + b) <==> Different(a) && Fresh(KeySet(a), b)
  {
    var s := a + b;
    if Different(s) {
      forall i, j | 0 <= i < j < |a| ensures a[i] != a[j] {
        assert s[i] != s[j];
      }
      forall i, j | 0 <= i < j < |b| ensures b[i] != b[j] {
        assert s[|a| + i] != s[|a| + j];
      }
      forall k | k in b ensures k !in KeySet(a) {
        var j :| 0 <= j < |b| && b[j] == k;
        forall i | 0 <= i < |a| ensures a[i] != k {
          assert s[i] != s[|a| + j];
        }
      }
    }
    if Different(a) && Fresh(KeySet(a), b) {
      forall i, j | 0 <= i < j < |s| ensures s[i] != s[j] {
        if i < |a| <= j {
          assert a[i] in a && b[j - |a|] in b;
        }
      }
    }
  }

  /** One more module: its keys are fresh exactly when the row of keys stays free of duplicates. */
  lemma CollectAllStep(now: Seen, mods: seq<Module>, i: nat, keys: Module -> seq<string>)
    requires i < |mods| && CollectedAll(now, mods[..i], keys)
    ensures Fresh(now.Keys, keys(mods[i])) <==> Different(All(mods[..i + 1], keys))
    ensures Fresh(now.Keys, keys(mods[i])) ==>
      CollectedAll(Added(now, keys(mods[i]), mods[i].name), mods[..i + 1], keys)
  {
    assert mods[..i + 1][..i] == mods[..i];
    AddedAllKeys(mods[..i], keys);
    DifferentConcat(All(mods[..i], keys), keys(mods[i]));
  }

  lemma {:induction false} AllPrefix(mods: seq<Module>, n: nat, keys: Module -> seq<string>)
    requires n <= |mods| && Different(All(mods, keys))
    ensures Different(All(mods[..n], keys))
    decreases |mods| - n
  {
    if n == |mods| {
      assert mods[..n] == mods;
    } else {
      AllPrefix(mods, n + 1, keys);
      assert mods[..n + 1][..n] == mods[..n];
      DifferentConcat(All(mods[..n], keys), keys(mods[n]));
    }
  }

  lemma {:induction false} InAll(mods: seq<Module>, j: nat, keys: Module -> seq<string>, k: string)
    requires j < |mods| && k in keys(mods[j])
    ensures k in All(mods, keys)
  {
    if j < |mods| - 1 {
      InAll(mods[..|mods| - 1], j, keys, k);
    }
  }

  /** The map knows the module of each key. */
  lemma {:induction false} OwnerOf(mods: seq<Module>, j: nat, keys: Module -> seq<string>, k: string)
    requires j < |mods| && k in keys(mods[j]) && Different(All(mods, keys))
    ensures k in AddedAll(mods, keys) && AddedAll(mods, keys)[k] == mods[j].name
  {
    var rest, last := mods[..|mods| - 1], mods[|mods| - 1];
    AddedKeys(AddedAll(rest, keys), keys(last), last.name);
    if j < |rest| {
      DifferentConcat(All(rest, keys), keys(last));
      InAll(rest, j, keys, k);
      OwnerOf(rest, j, keys, k);
    }
  }

  lemma {:induction false} OwnerFrom(mods: seq<Module>, keys: Module -> seq<string>, k: string) returns (j: nat)
    requires k in AddedAll(mods, keys)
    ensures j < |mods| && k in keys(mods[j]) && AddedAll(mods, keys)[k] == mods[j].name
  {
    var rest, last := mods[..|mods| - 1], mods[|mods| - 1];
    AddedKeys(AddedAll(rest, keys), keys(last), last.name);
    if k in keys(last) {
      j := |rest|;
    } else {
      j := OwnerFrom(rest, keys, k);
    }
  }

  lemma {:induction false} NamesInOrder(mods: seq<Module>, j: nat)
    requires j < |mods|
    ensures |All(mods, NAMES)| == |mods| && All(mods, NAMES)[j] == mods[j].name
  {
    var rest := mods[..|mods| - 1];
    if |rest| > 0 {
      NamesInOrder(rest, if j < |rest| then j else 0);
    }
  }

  /** Asking the map for the owner is asking the module for the key. */
  lemma OwnedByMap(mods: seq<Module>, i: nat, keys: Module -> seq<string>, key: string)
    requires i < |mods| && Different(All(mods, keys)) && Different(All(mods, NAMES))
    ensures RequireOwned(AddedAll(mods, keys), key, mods[i].name) <==> Blank(key) || TrimSpace(key) in keys(mods[i])
  {
    OwnedKey(mods, i, keys, TrimSpace(key));
  }

  lemma NameIdentifies(mods: seq<Module>, i: nat, j: nat)
    requires i < |mods| && j < |mods| && Different(All(mods, NAMES)) && mods[i].name == mods[j].name
    ensures i == j
  {
    NamesInOrder(mods, i);
    NamesInOrder(mods, j);
  }

  lemma OwnedKey(mods: seq<Module>, i: nat, keys: Module -> seq<string>, k: string)
    requires i < |mods| && Different(All(mods, keys)) && Different(All(mods, NAMES))
    ensures k in AddedAll(mods, keys) && AddedAll(mods, keys)[k] == mods[i].name <==> k in keys(mods[i])
  {
    var owners := AddedAll(mods, keys);
    if k in keys(mods[i]) {
      OwnerOf(mods, i, keys, k);
    } else if k in owners {
      var j := OwnerFrom(mods, keys, k);
      if mods[j].name == mods[i].name {
        NameIdentifies(mods, i, j);
      }
    }
  }

  // --------------------------------------------------------------- the first pass

  /** The loop over the permissions; `fine` is what it asks of one permission. */
  ghost predicate PermissionsPass(m: Module, fine: PermissionDefinition -> bool, codes: Seen) {
    (forall p | p in m.permissions :: fine(p)) && Fresh(codes.Keys, CODES(m))
  }

  /** What the loop over the permissions has reached; `fine` is what it asks of one of them. */
  ghost predicate PermissionsReached(m: Module, fine: PermissionDefinition -> bool, i: nat, codes: Seen, now: Seen)
    requires i <= |m.permissions|
  {
    (forall k | 0 <= k < i :: fine(m.permissions[k])) && Collected(codes, now, CODES(m)[..i], m.name)
  }

  /** One turn of the loop. */
  method CheckPermission(m: Module, fine: PermissionDefinition -> bool, i: nat, ghost codes: Seen, now: Seen)
    returns (ok: bool, now': Seen)
    requires i < |m.permissions| && PermissionsReached(m, fine, i, codes, now)
    requires fine(m.permissions[i]) ==> CODES(m)[i] != ""
    ensures ok ==> PermissionsReached(m, fine, i + 1, codes, now')
    ensures !ok ==> !PermissionsPass(m, fine, codes)
  {
    var p := m.permissions[i];
    assert p in m.permissions;
    if !fine(p) {
      return false, now;
    }
    ok, now' := CollectKey(codes, now, CODES(m), i, p.code, m.name);
  }

  method CheckPermissions(m: Module, fine: PermissionDefinition -> bool, codes: Seen) returns (ok: bool, now: Seen)
    requires forall k | 0 <= k < |m.permissions| :: fine(m.permissions[k]) ==> CODES(m)[k] != ""
    ensures ok <==> PermissionsPass(m, fine, codes)
    ensures ok ==> now == Added(codes, CODES(m), m.name)
  {
    now := codes;
    for i := 0 to |m.permissions|
      invariant PermissionsReached(m, fine, i, codes, now)
    {
      ok, now := CheckPermission(m, fine, i, codes, now);
      if !ok {
        return;
      }
    }
    assert CODES(m)[..|m.permissions|] == CODES(m);
    ok := true;
  }

  method CheckMenuNames(m: Module, names: Seen) returns (ok: bool, now: Seen)
    ensures ok <==> (forall e | e in m.menus :: !Blank(e.name)) && Fresh(names.Keys, MENU_NAMES(m))
    ensures ok ==> now == Added(names, MENU_NAMES(m), m.name)
  {
    ghost var keys := MENU_NAMES(m);
    now := names;
    for i := 0 to |m.menus|
      invariant forall k | 0 <= k < i :: !Blank(m.menus[k].name)
      invariant Collected(names, now, keys[..i], m.name)
    {
      var e := m.menus[i];
      assert e in m.menus;
      if TrimSpace(e.name) == "" {
        return false, now;
      }
      ok, now := CollectKey(names, now, keys, i, e.name, m.name);
      if !ok {
        return false, now;
      }
    }
    assert keys[..|keys|] == keys;
    return true, now;
  }

  /** What the first pass checks of one module. */
  ghost predicate FirstFine(m: Module) {
    && ValidName(m.name)
    && (forall p | p in m.permissions :: PermissionFine(m, p))
    && (forall e | e in m.menus :: !Blank(e.name))
  }

  ghost predicate FirstDifferent(mods: seq<Module>) {
    Different(All(mods, NAMES)) && Different(All(mods, CODES)) && Different(All(mods, MENU_NAMES))
  }

  /** The maps of the first pass hold the keys of these modules. */
  ghost predicate FirstKeys(mods: seq<Module>, names: Seen, codes: Seen, menuNames: Seen) {
    CollectedAll(names, mods, NAMES) && CollectedAll(codes, mods, CODES) && CollectedAll(menuNames, mods, MENU_NAMES)
  }

  /** One turn of the first pass. */
  method CheckFirst(mods: seq<Module>, i: nat, names: Seen, codes: Seen, menuNames: Seen)
    returns (ok: bool, names': Seen, codes': Seen, menuNames': Seen)
    requires i < |mods| && FirstKeys(mods[..i], names, codes, menuNames)
    ensures ok <==> FirstFine(mods[i]) && FirstDifferent(mods[..i + 1])
    ensures ok ==> FirstKeys(mods[..i + 1], names', codes', menuNames')
  {
    var m := mods[i];
    names', codes', menuNames' := names, codes, menuNames;
    CollectAllStep(names, mods, i, NAMES);
    CollectAllStep(codes, mods, i, CODES);
    CollectAllStep(menuNames, mods, i, MENU_NAMES);
    if !ValidName(m.name) {
      return false, names', codes', menuNames';
    }
    ValidNameTrimmed(m.name);
    OneKey(names, m.name, m.name);
    ok, names' := RequireUnique(names, m.name, m.name);
    if !ok {
      return;
    }
    ok, codes' := CheckPermissions(m, p => PermissionFine(m, p), codes);
    if !ok {
      return;
    }
    ok, menuNames' := CheckMenuNames(m, menuNames);
  }

  lemma OneKey(seen: Seen, k: string, owner: string)
    ensures Fresh(seen.Keys, [k]) <==> k !in seen
    ensures Added(seen, [k], owner) == seen[k := owner]
  {
    assert [k][..0] == [];
    assert k in [k];
  }

  ghost predicate FirstPasses(mods: seq<Module>) {
    (forall m | m in mods :: FirstFine(m)) && FirstDifferent(mods)
  }

  /** What the first pass has reached before module `i`. */
  ghost predicate FirstReached(mods: seq<Module>, i: nat, names: Seen, codes: Seen, menuNames: Seen)
    requires i <= |mods|
  {
    (forall k | 0 <= k < i :: FirstFine(mods[k])) && FirstKeys(mods[..i], names, codes, menuNames)
  }

  lemma FirstFails(mods: seq<Module>, i: nat)
    requires i < |mods| && !(FirstFine(mods[i]) && FirstDifferent(mods[..i + 1]))
    ensures !FirstPasses(mods)
  {
    assert mods[i] in mods;
    if FirstDifferent(mods) {
      AllPrefix(mods, i + 1, NAMES);
      AllPrefix(mods, i + 1, CODES);
      AllPrefix(mods, i + 1, MENU_NAMES);
    }
  }

  lemma FirstDone(mods: seq<Module>, names: Seen, codes: Seen, menuNames: Seen)
    requires FirstReached(mods, |mods|, names, codes, menuNames)
    ensures FirstPasses(mods)
    ensures codes == AddedAll(mods, CODES) && menuNames == AddedAll(mods, MENU_NAMES)
  {
    assert mods[..|mods|] == mods;
  }

  method TurnFirst(mods: seq<Module>, i: nat, names: Seen, codes: Seen, menuNames: Seen)
    returns (ok: bool, names': Seen, codes': Seen, menuNames': Seen)
    requires i < |mods| && FirstReached(mods, i, names, codes, menuNames)
    ensures ok ==> FirstReached(mods, i + 1, names', codes', menuNames')
    ensures !ok ==> !FirstPasses(mods)
  {
    ok, names', codes', menuNames' := CheckFirst(mods, i, names, codes, menuNames);
    if !ok {
      FirstFails(mods, i);
    }
  }

  method FirstPass(mods: seq<Module>) returns (ok: bool, codes: Seen, menuNames: Seen)
    ensures ok <==> FirstPasses(mods)
    ensures ok ==> codes == AddedAll(mods, CODES) && menuNames == AddedAll(mods, MENU_NAMES)
  {
    var names: Seen := map[];
    codes, menuNames := map[], map[];
    for i := 0 to |mods|
      invariant FirstReached(mods, i, names, codes, menuNames)
    {
      ok, names, codes, menuNames := TurnFirst(mods, i, names, codes, menuNames);
      if !ok {
        return;
      }
    }
    FirstDone(mods, names, codes, menuNames);
    ok := true;
  }

  // -------------------------------------------------------------- the second pass

  /** What the loop over the backend routes has reached; `fine` is what it asks of one route. */
  ghost predicate BackendReached(m: Module, fine: BackendRoute -> bool, i: nat,
                                 names: Seen, names': Seen, patterns: Seen, patterns': Seen)
    requires i <= |m.backend|
  {
    && (forall k | 0 <= k < i :: fine(m.backend[k]))
    && Collected(names, names', BACKEND_NAMES(m)[..i], m.name)
    && Collected(patterns, patterns', BACKEND_PATTERNS(m)[..i], m.name)
  }

  ghost predicate BackendPasses(m: Module, fine: BackendRoute -> bool, names: Seen, patterns: Seen) {
    && (forall r | r in m.backend :: fine(r))
    && Fresh(names.Keys, BACKEND_NAMES(m)) && Fresh(patterns.Keys, BACKEND_PATTERNS(m))
  }

  /** One turn of the loop. */
  method CheckBackendRoute(m: Module, fine: BackendRoute -> bool, i: nat,
                           ghost names0: Seen, names: Seen, ghost patterns0: Seen, patterns: Seen)
    returns (ok: bool, names': Seen, patterns': Seen)
    requires i < |m.backend| && BackendReached(m, fine, i, names0, names, patterns0, patterns)
    requires fine(m.backend[i]) ==> BACKEND_NAMES(m)[i] != "" && BACKEND_PATTERNS(m)[i] != ""
    ensures ok ==> BackendReached(m, fine, i + 1, names0, names', patterns0, patterns')
    ensures !ok ==> !BackendPasses(m, fine, names0, patterns0)
  {
    var r := m.backend[i];
    assert r in m.backend;
    if !fine(r) {
      return false, names, patterns;
    }
    ok, names', patterns' := CollectTwo(names0, names, BACKEND_NAMES(m), r.name,
      patterns0, patterns, BACKEND_PATTERNS(m), TrimSpace(r.verb) + " " + TrimSpace(r.path), i, m.name);
  }

  method CheckBackend(m: Module, fine: BackendRoute -> bool, names: Seen, patterns: Seen)
    returns (ok: bool, names': Seen, patterns': Seen)
    requires forall k | 0 <= k < |m.backend| ::
      fine(m.backend[k]) ==> BACKEND_NAMES(m)[k] != "" && BACKEND_PATTERNS(m)[k] != ""
    ensures ok <==> BackendPasses(m, fine, names, patterns)
    ensures ok ==> names' == Added(names, BACKEND_NAMES(m), m.name)
    ensures ok ==> patterns' == Added(patterns, BACKEND_PATTERNS(m), m.name)
  {
    names', patterns' := names, patterns;
    for i := 0 to |m.backend|
      invariant BackendReached(m, fine, i, names, names', patterns, patterns')
    {
      ok, names', patterns' := CheckBackendRoute(m, fine, i, names, names', patterns, patterns');
      if !ok {
        return;
      }
    }
    BackendDone(m, fine, names, names', patterns, patterns');
    ok := true;
  }

  lemma BackendDone(m: Module, fine: BackendRoute -> bool, names: Seen, names': Seen, patterns: Seen, patterns': Seen)
    requires BackendReached(m, fine, |m.backend|, names, names', patterns, patterns')
    ensures BackendPasses(m, fine, names, patterns)
    ensures names' == Added(names, BACKEND_NAMES(m), m.name)
    ensures patterns' == Added(patterns, BACKEND_PATTERNS(m), m.name)
  {
    assert BACKEND_NAMES(m)[..|m.backend|] == BACKEND_NAMES(m);
    assert BACKEND_PATTERNS(m)[..|m.backend|] == BACKEND_PATTERNS(m);
  }

  lemma NotBlankConcat(a: string, b: string)
    requires !Blank(a)
    ensures !Blank(a + b)
  {
    TrimSpaceBlank(a);
    TrimSpaceBlank(a + b);
    var c :| c in a && !IsSpace(c);
    assert c in a + b;
  }

  lemma PatternNotBlank(r: BackendRoute)
    requires TrimSpace(r.verb) != ""
    ensures BACKEND_PATTERN(r) != ""
  {
    TrimSpaceTwice(r.verb);
    NotBlankConcat(TrimSpace(r.verb), " ");
    NotBlankConcat(TrimSpace(r.verb) + " ", TrimSpace(r.path));
  }

  ghost predicate MenusPass(m: Module, fine: MenuEntry -> bool, paths: Seen) {
    (forall e | e in m.menus :: fine(e)) && Fresh(paths.Keys, MENU_PATHS(m))
  }

  /** What the loop over the menus has reached; `fine` is what it asks of one menu. */
  ghost predicate MenusReached(m: Module, fine: MenuEntry -> bool, i: nat, paths: Seen, now: Seen)
    requires i <= |m.menus|
  {
    (forall k | 0 <= k < i :: fine(m.menus[k])) && Collected(paths, now, MENU_PATHS(m)[..i], m.name)
  }

  /** One turn of the loop. */
  method CheckMenu(m: Module, fine: MenuEntry -> bool, i: nat, ghost paths: Seen, now: Seen)
    returns (ok: bool, now': Seen)
    requires i < |m.menus| && MenusReached(m, fine, i, paths, now)
    requires fine(m.menus[i]) ==> MENU_ENTRY_PATH(m.menus[i]) != ""
    ensures ok ==> MenusReached(m, fine, i + 1, paths, now')
    ensures !ok ==> !MenusPass(m, fine, paths)
  {
    var e := m.menus[i];
    assert e in m.menus;
    if !fine(e) {
      return false, now;
    }
    TrimSpaceTwice(e.path);
    ok, now' := CollectKey(paths, now, MENU_PATHS(m), i, TrimSpace(e.path), m.name);
  }

  method CheckMenus(m: Module, fine: MenuEntry -> bool, paths: Seen) returns (ok: bool, now: Seen)
    requires forall e | fine(e) :: MENU_ENTRY_PATH(e) != ""
    ensures ok <==> MenusPass(m, fine, paths)
    ensures ok ==> now == Added(paths, MENU_PATHS(m), m.name)
  {
    now := paths;
    for i := 0 to |m.menus|
      invariant MenusReached(m, fine, i, paths, now)
    {
      ok, now := CheckMenu(m, fine, i, paths, now);
      if !ok {
        return;
      }
    }
    assert MENU_PATHS(m)[..|m.menus|] == MENU_PATHS(m);
    ok := true;
  }

  type Components = map<string, FrontendRoute>

  /** What the loop over the frontend routes has reached; `fine` is what it asks of one route. */
  ghost predicate RoutesReached(m: Module, fine: FrontendRoute -> bool, i: nat,
                                names: Seen, names': Seen, paths: Seen, paths': Seen)
    requires i <= |m.routes|
  {
    && (forall k | 0 <= k < i :: fine(m.routes[k]))
    && Collected(names, names', ROUTE_NAMES(m)[..i], m.name)
    && Collected(paths, paths', ROUTE_PATHS(m)[..i], m.name)
  }

  ghost predicate RoutesPass(m: Module, fine: FrontendRoute -> bool, names: Seen, paths: Seen) {
    && (forall r | r in m.routes :: fine(r))
    && Fresh(names.Keys, ROUTE_NAMES(m)) && Fresh(paths.Keys, ROUTE_PATHS(m))
  }

  /** One turn of the loop, up to the entry in the map by path. */
  method CheckRoute(m: Module, fine: FrontendRoute -> bool, i: nat,
                    ghost names0: Seen, names: Seen, ghost paths0: Seen, paths: Seen)
    returns (ok: bool, names': Seen, paths': Seen)
    requires i < |m.routes| && RoutesReached(m, fine, i, names0, names, paths0, paths)
    requires fine(m.routes[i]) ==> ROUTE_NAMES(m)[i] != "" && ROUTE_PATHS(m)[i] != ""
    ensures ok ==> RoutesReached(m, fine, i + 1, names0, names', paths0, paths')
    ensures !ok ==> !RoutesPass(m, fine, names0, paths0)
  {
    var r := m.routes[i];
    assert r in m.routes;
    if !fine(r) {
      return false, names, paths;
    }
    TrimSpaceTwice(r.path);
    ok, names', paths' := CollectTwo(names0, names, ROUTE_NAMES(m), r.name,
      paths0, paths, ROUTE_PATHS(m), TrimSpace(r.path), i, m.name);
  }

  method CheckRoutes(m: Module, fine: FrontendRoute -> bool, names: Seen, paths: Seen, byPath: Components)
    returns (ok: bool, names': Seen, paths': Seen, byPath': Components)
    requires forall k | 0 <= k < |m.routes| :: fine(m.routes[k]) ==> ROUTE_NAMES(m)[k] != "" && ROUTE_PATHS(m)[k] != ""
    ensures ok <==> RoutesPass(m, fine, names, paths)
    ensures ok ==> names' == Added(names, ROUTE_NAMES(m), m.name)
    ensures ok ==> paths' == Added(paths, ROUTE_PATHS(m), m.name)
    ensures ok ==> Filed(byPath, byPath', m.routes, ROUTE_PATHS(m), |m.routes|)
  {
    ghost var keys := ROUTE_PATHS(m);
    names', paths', byPath' := names, paths, byPath;
    for i := 0 to |m.routes|
      invariant RoutesReached(m, fine, i, names, names', paths, paths')
      invariant Filed(byPath, byPath', m.routes, keys, i)
    {
      ok, names', paths' := CheckRoute(m, fine, i, names, names', paths, paths');
      if !ok {
        return;
      }
      FileOne(byPath, byPath', m.routes, keys, i);
      byPath' := byPath'[TrimSpace(m.routes[i].path) := m.routes[i]];
    }
    RoutesDone(m, fine, names, names', paths, paths');
    ok := true;
  }

  lemma RoutesDone(m: Module, fine: FrontendRoute -> bool, names: Seen, names': Seen, paths: Seen, paths': Seen)
    requires RoutesReached(m, fine, |m.routes|, names, names', paths, paths')
    ensures RoutesPass(m, fine, names, paths)
    ensures names' == Added(names, ROUTE_NAMES(m), m.name)
    ensures paths' == Added(paths, ROUTE_PATHS(m), m.name)
  {
    assert ROUTE_NAMES(m)[..|m.routes|] == ROUTE_NAMES(m);
    assert ROUTE_PATHS(m)[..|m.routes|] == ROUTE_PATHS(m);
  }

  /** The first `n` routes are filed under their paths, over what was there. */
  ghost predicate Filed(byPath: Components, now: Components, routes: seq<FrontendRoute>, paths: seq<string>, n: nat)
    requires n <= |routes| == |paths|
  {
    && (forall p | p in byPath :: p in now)
    && (forall k | 0 <= k < n :: paths[k] in now)
    && (forall p | p in now :: (p in byPath && now[p] == byPath[p]) || FiledAs(now[p], p, routes, paths, n))
  }

  ghost predicate FiledAs(r: FrontendRoute, p: string, routes: seq<FrontendRoute>, paths: seq<string>, n: nat)
    requires n <= |routes| == |paths|
  {
    exists k | 0 <= k < n :: paths[k] == p && routes[k] == r
  }

  lemma FileOne(byPath: Components, now: Components, routes: seq<FrontendRoute>, paths: seq<string>, n: nat)
    requires n < |routes| == |paths| && Filed(byPath, now, routes, paths, n)
    ensures Filed(byPath, now[paths[n] := routes[n]], routes, paths, n + 1)
  {
    var next := now[paths[n] := routes[n]];
    forall p | p in next ensures (p in byPath && next[p] == byPath[p]) || FiledAs(next[p], p, routes, paths, n + 1) {
      if p == paths[n] {
        assert paths[n] == p && routes[n] == next[p];
      } else if !(p in byPath && now[p] == byPath[p]) {
        var k :| 0 <= k < n && paths[k] == p && routes[k] == now[p];
      }
    }
  }

  ghost predicate MigrationsPass(m: Module, keys: Seen) {
    AllMigrationsFine(m) && Fresh(keys.Keys, MIGRATION_KEYS(m))
  }

  /** What the loop over the migration sets has reached. */
  ghost predicate MigrationsReached(m: Module, i: nat, keys: Seen, now: Seen)
    requires i <= |m.migrations|
  {
    (forall k | 0 <= k < i :: MigrationShape(m.migrations[k])) && Collected(keys, now, MIGRATION_KEYS(m)[..i], m.name)
  }

  /** One turn of the loop. */
  method CheckMigration(m: Module, i: nat, ghost keys: Seen, now: Seen) returns (ok: bool, now': Seen)
    requires i < |m.migrations| && MigrationsReached(m, i, keys, now)
    ensures ok ==> MigrationsReached(m, i + 1, keys, now')
    ensures !ok ==> !MigrationsPass(m, keys)
  {
    var s := m.migrations[i];
    assert s in m.migrations;
    if TrimSpace(s.driver) == "" || TrimSpace(s.dir) == "" {
      return false, now;
    }
    MigrationKeyNotBlank(s);
    ok, now' := CollectKey(keys, now, MIGRATION_KEYS(m), i, s.driver + " " + s.dir, m.name);
  }

  method CheckMigrations(m: Module, keys: Seen) returns (ok: bool, now: Seen)
    ensures ok <==> MigrationsPass(m, keys)
    ensures ok ==> now == Added(keys, MIGRATION_KEYS(m), m.name)
  {
    now := keys;
    for i := 0 to |m.migrations|
      invariant MigrationsReached(m, i, keys, now)
    {
      ok, now := CheckMigration(m, i, keys, now);
      if !ok {
        return;
      }
    }
    assert MIGRATION_KEYS(m)[..|m.migrations|] == MIGRATION_KEYS(m);
    ok := true;
  }

  lemma MigrationKeyNotBlank(s: MigrationSet)
    requires TrimSpace(s.driver) != ""
    ensures TrimSpace(s.driver + " " + s.dir) != ""
  {
    NotBlankConcat(s.driver, " ");
    NotBlankConcat(s.driver + " ", s.dir);
  }

  /** The maps of the second pass. */
  datatype Maps = Maps(
    backendNames: Seen, backendPatterns: Seen, menuPaths: Seen, routeNames: Seen, routePaths: Seen,
    migrationKeys: Seen, byPath: Components)

  ghost predicate KeysReached(maps: Maps, mods: seq<Module>) {
    && CollectedAll(maps.backendNames, mods, BACKEND_NAMES)
    && CollectedAll(maps.backendPatterns, mods, BACKEND_PATTERNS)
    && CollectedAll(maps.menuPaths, mods, MENU_PATHS)
    && CollectedAll(maps.routeNames, mods, ROUTE_NAMES)
    && CollectedAll(maps.routePaths, mods, ROUTE_PATHS)
    && CollectedAll(maps.migrationKeys, mods, MIGRATION_KEYS)
  }

  ghost predicate SecondDifferent(mods: seq<Module>) {
    && Different(All(mods, BACKEND_NAMES)) && Different(All(mods, BACKEND_PATTERNS))
    && Different(All(mods, MENU_PATHS)) && Different(All(mods, ROUTE_NAMES))
    && Different(All(mods, ROUTE_PATHS)) && Different(All(mods, MIGRATION_KEYS))
  }

  lemma SecondDifferentPrefix(mods: seq<Module>, n: nat)
    requires n <= |mods|
    ensures SecondDifferent(mods) ==> SecondDifferent(mods[..n])
  {
    if SecondDifferent(mods) {
      AllPrefix(mods, n, BACKEND_NAMES);
      AllPrefix(mods, n, BACKEND_PATTERNS);
      AllPrefix(mods, n, MENU_PATHS);
      AllPrefix(mods, n, ROUTE_NAMES);
      AllPrefix(mods, n, ROUTE_PATHS);
      AllPrefix(mods, n, MIGRATION_KEYS);
    }
  }

  /** `byPath` holds the routes of the modules, each under its path. */
  ghost predicate RoutesFiled(byPath: Components, mods: seq<Module>) {
    && (forall p | p in byPath :: RouteAt(byPath[p], p, mods))
    && (forall j, k | 0 <= j < |mods| && 0 <= k < |mods[j].routes| :: ROUTE_PATHS(mods[j])[k] in byPath)
  }

  ghost predicate RouteAt(r: FrontendRoute, p: string, mods: seq<Module>) {
    exists j | 0 <= j < |mods| :: FiledAs(r, p, mods[j].routes, ROUTE_PATHS(mods[j]), |mods[j].routes|)
  }

  /** What the second pass asks of the parts of a module, given the maps of the first. */
  predicate BackendFine(m: Module, codes: Seen, r: BackendRoute) {
    BackendShape(m, r) && RequireOwned(codes, r.permission, m.name)
  }

  predicate MenuFine(m: Module, codes: Seen, menuNames: Seen, e: MenuEntry) {
    MenuShape(m, e) && RequireOwned(menuNames, e.parent, m.name) && RequireOwned(codes, e.permission, m.name)
  }

  predicate RouteFine(m: Module, codes: Seen, r: FrontendRoute) {
    RouteShape(m, r) && RequireOwned(codes, r.permission, m.name)
  }

  ghost predicate AllBackendFine(m: Module, codes: Seen) {
    forall r | r in m.backend :: BackendFine(m, codes, r)
  }

  ghost predicate AllMenusFine(m: Module, codes: Seen, menuNames: Seen) {
    forall e | e in m.menus :: MenuFine(m, codes, menuNames, e)
  }

  ghost predicate AllRoutesFine(m: Module, codes: Seen) {
    forall r | r in m.routes :: RouteFine(m, codes, r)
  }

  ghost predicate AllMigrationsFine(m: Module) {
    forall s | s in m.migrations :: MigrationShape(s)
  }

  ghost predicate SecondFine(m: Module, codes: Seen, menuNames: Seen) {
    AllBackendFine(m, codes) && AllMenusFine(m, codes, menuNames) && AllRoutesFine(m, codes) && AllMigrationsFine(m)
  }

  lemma BackendKeysNotBlank(m: Module, codes: Seen)
    ensures forall k | 0 <= k < |m.backend| ::
      BackendFine(m, codes, m.backend[k]) ==> BACKEND_NAMES(m)[k] != "" && BACKEND_PATTERNS(m)[k] != ""
  {
    forall k | 0 <= k < |m.backend| && BackendFine(m, codes, m.backend[k])
      ensures BACKEND_NAMES(m)[k] != "" && BACKEND_PATTERNS(m)[k] != ""
    {
      PatternNotBlank(m.backend[k]);
      assert BACKEND_PATTERNS(m)[k] == BACKEND_PATTERN(m.backend[k]);
    }
  }

  method CheckModuleBackend(m: Module, codes: Seen, names: Seen, patterns: Seen)
    returns (ok: bool, names': Seen, patterns': Seen)
    ensures ok <==> AllBackendFine(m, codes) &&
                    Fresh(names.Keys, BACKEND_NAMES(m)) && Fresh(patterns.Keys, BACKEND_PATTERNS(m))
    ensures ok ==> names' == Added(names, BACKEND_NAMES(m), m.name)
    ensures ok ==> patterns' == Added(patterns, BACKEND_PATTERNS(m), m.name)
  {
    BackendKeysNotBlank(m, codes);
    ok, names', patterns' := CheckBackend(m, r => BackendFine(m, codes, r), names, patterns);
  }

  method CheckModuleMenus(m: Module, codes: Seen, menuNames: Seen, paths: Seen) returns (ok: bool, now: Seen)
    ensures ok <==> AllMenusFine(m, codes, menuNames) && Fresh(paths.Keys, MENU_PATHS(m))
    ensures ok ==> now == Added(paths, MENU_PATHS(m), m.name)
  {
    ok, now := CheckMenus(m, e => MenuFine(m, codes, menuNames, e), paths);
  }

  method CheckModuleRoutes(m: Module, codes: Seen, names: Seen, paths: Seen, byPath: Components)
    returns (ok: bool, names': Seen, paths': Seen, byPath': Components)
    ensures ok <==> AllRoutesFine(m, codes) && Fresh(names.Keys, ROUTE_NAMES(m)) && Fresh(paths.Keys, ROUTE_PATHS(m))
    ensures ok ==> names' == Added(names, ROUTE_NAMES(m), m.name)
    ensures ok ==> paths' == Added(paths, ROUTE_PATHS(m), m.name)
    ensures ok ==> Filed(byPath, byPath', m.routes, ROUTE_PATHS(m), |m.routes|)
  {
    ok, names', paths', byPath' := CheckRoutes(m, r => RouteFine(m, codes, r), names, paths, byPath);
  }

  /** No key of the module is in its map yet. */
  ghost predicate KeysFresh(maps: Maps, m: Module) {
    && Fresh(maps.backendNames.Keys, BACKEND_NAMES(m))
    && Fresh(maps.backendPatterns.Keys, BACKEND_PATTERNS(m))
    && Fresh(maps.menuPaths.Keys, MENU_PATHS(m))
    && Fresh(maps.routeNames.Keys, ROUTE_NAMES(m))
    && Fresh(maps.routePaths.Keys, ROUTE_PATHS(m))
    && Fresh(maps.migrationKeys.Keys, MIGRATION_KEYS(m))
  }

  /** `maps'` holds the keys of the module besides those of `maps`. */
  ghost predicate KeysAdded(maps: Maps, maps': Maps, m: Module) {
    && maps'.backendNames == Added(maps.backendNames, BACKEND_NAMES(m), m.name)
    && maps'.backendPatterns == Added(maps.backendPatterns, BACKEND_PATTERNS(m), m.name)
    && maps'.menuPaths == Added(maps.menuPaths, MENU_PATHS(m), m.name)
    && maps'.routeNames == Added(maps.routeNames, ROUTE_NAMES(m), m.name)
    && maps'.routePaths == Added(maps.routePaths, ROUTE_PATHS(m), m.name)
    && maps'.migrationKeys == Added(maps.migrationKeys, MIGRATION_KEYS(m), m.name)
  }

  /** The second pass over one module. */
  method CheckModule(m: Module, codes: Seen, menuNames: Seen, maps: Maps) returns (ok: bool, maps': Maps)
    ensures ok <==> SecondFine(m, codes, menuNames) && KeysFresh(maps, m)
    ensures ok ==> KeysAdded(maps, maps', m)
    ensures ok ==> Filed(maps.byPath, maps'.byPath, m.routes, ROUTE_PATHS(m), |m.routes|)
  {
    maps' := maps;
    var backendNames, backendPatterns, menuPaths, routeNames, routePaths, migrationKeys, byPath;
    ok, backendNames, backendPatterns := CheckModuleBackend(m, codes, maps.backendNames, maps.backendPatterns);
    if !ok {
      return;
    }
    ok, menuPaths := CheckModuleMenus(m, codes, menuNames, maps.menuPaths);
    if !ok {
      return;
    }
    ok, routeNames, routePaths, byPath := CheckModuleRoutes(m, codes, maps.routeNames, maps.routePaths, maps.byPath);
    if !ok {
      return;
    }
    ok, migrationKeys := CheckMigrations(m, maps.migrationKeys);
    maps' := Maps(backendNames, backendPatterns, menuPaths, routeNames, routePaths, migrationKeys, byPath);
  }

  /** One turn of the second pass. */
  method CheckSecond(mods: seq<Module>, i: nat, codes: Seen, menuNames: Seen, maps: Maps)
    returns (ok: bool, maps': Maps)
    requires i < |mods| && KeysReached(maps, mods[..i])
    ensures ok <==> SecondFine(mods[i], codes, menuNames) && SecondDifferent(mods[..i + 1])
    ensures ok ==> KeysReached(maps', mods[..i + 1])
    ensures ok ==> Filed(maps.byPath, maps'.byPath, mods[i].routes, ROUTE_PATHS(mods[i]), |mods[i].routes|)
  {
    ok, maps' := CheckModule(mods[i], codes, menuNames, maps);
    CollectSix(maps, maps', mods, i);
  }

  /** One more module for all six kinds of keys. */
  lemma CollectSix(maps: Maps, maps': Maps, mods: seq<Module>, i: nat)
    requires i < |mods| && KeysReached(maps, mods[..i])
    ensures SecondDifferent(mods[..i + 1]) <==> KeysFresh(maps, mods[i])
    ensures KeysFresh(maps, mods[i]) && KeysAdded(maps, maps', mods[i]) ==> KeysReached(maps', mods[..i + 1])
  {
    CollectAllStep(maps.backendNames, mods, i, BACKEND_NAMES);
    CollectAllStep(maps.backendPatterns, mods, i, BACKEND_PATTERNS);
    CollectAllStep(maps.menuPaths, mods, i, MENU_PATHS);
    CollectAllStep(maps.routeNames, mods, i, ROUTE_NAMES);
    CollectAllStep(maps.routePaths, mods, i, ROUTE_PATHS);
    CollectAllStep(maps.migrationKeys, mods, i, MIGRATION_KEYS);
  }

  lemma FileModule(byPath: Components, now: Components, mods: seq<Module>, i: nat)
    requires i < |mods| && RoutesFiled(byPath, mods[..i])
    requires Filed(byPath, now, mods[i].routes, ROUTE_PATHS(mods[i]), |mods[i].routes|)
    ensures RoutesFiled(now, mods[..i + 1])
  {
    var before, after := mods[..i], mods[..i + 1];
    forall p | p in now ensures RouteAt(now[p], p, after) {
      if p in byPath && now[p] == byPath[p] {
        var j :| 0 <= j < |before| &&
          FiledAs(byPath[p], p, before[j].routes, ROUTE_PATHS(before[j]), |before[j].routes|);
        assert after[j] == before[j];
      } else {
        assert after[i] == mods[i];
      }
    }
    forall j, k | 0 <= j < |after| && 0 <= k < |after[j].routes| ensures ROUTE_PATHS(after[j])[k] in now {
      if j < i {
        assert before[j] == after[j];
        assert ROUTE_PATHS(before[j])[k] in byPath;
      }
    }
  }

  ghost predicate SecondReached(maps: Maps, mods: seq<Module>, i: nat, codes: Seen, menuNames: Seen)
    requires i <= |mods|
  {
    && (forall k | 0 <= k < i :: SecondFine(mods[k], codes, menuNames))
    && KeysReached(maps, mods[..i]) && RoutesFiled(maps.byPath, mods[..i])
  }

  ghost predicate SecondPasses(mods: seq<Module>, codes: Seen, menuNames: Seen) {
    (forall k | 0 <= k < |mods| :: SecondFine(mods[k], codes, menuNames)) && SecondDifferent(mods)
  }

  method TurnSecond(mods: seq<Module>, i: nat, codes: Seen, menuNames: Seen, maps: Maps) returns (ok: bool, maps': Maps)
    requires i < |mods| && SecondReached(maps, mods, i, codes, menuNames)
    ensures ok ==> SecondReached(maps', mods, i + 1, codes, menuNames)
    ensures !ok ==> !SecondPasses(mods, codes, menuNames)
  {
    ok, maps' := CheckSecond(mods, i, codes, menuNames, maps);
    if ok {
      FileModule(maps.byPath, maps'.byPath, mods, i);
    } else {
      SecondDifferentPrefix(mods, i + 1);
    }
  }

  method SecondPass(mods: seq<Module>, codes: Seen, menuNames: Seen) returns (ok: bool, byPath: Components)
    ensures ok <==> SecondPasses(mods, codes, menuNames)
    ensures ok ==> RoutesFiled(byPath, mods)
  {
    var maps := Maps(map[], map[], map[], map[], map[], map[], map[]);
    byPath := map[];
    for i := 0 to |mods|
      invariant SecondReached(maps, mods, i, codes, menuNames)
    {
      ok, maps := TurnSecond(mods, i, codes, menuNames, maps);
      if !ok {
        return;
      }
    }
    assert mods[..|mods|] == mods;
    return true, maps.byPath;
  }
}
