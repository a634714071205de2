/**
 Permission lists: how they are cleaned, and the two ways the server answers
 "may this user do p" — the policy the middleware asks, and the flat list the
 profile and the menu filter use.
 */
module Permissions {
  import opened Domain
  import opened Text

  // --------------------------------------------------------------- permission lists

  /** The permissions a list grants: its trimmed, nonempty entries. */
  function Grants(values: seq<string>): set<string> {
    set v | v in values && TrimSpace(v) != "" :: TrimSpace(v)
  }

  /** The trimmed, nonempty entries, each where it first occurs. */
  function FirstOccurrences(values: seq<string>): seq<string> {
    if values == [] then []
    else
      var before := FirstOccurrences(values[..|values| - 1]);
      var v := TrimSpace(values[|values| - 1]);
      if v == "" || v in before then before else before + [v]
  }

  /** A cleaned list is the wildcard alone when the wildcard is granted. */
  function Cleaned(values: seq<string>): seq<string> {
    if PERMISSION_ALL in Grants(values) then [PERMISSION_ALL] else FirstOccurrences(values)
  }

  ghost predicate Distinct<T>(s: seq<T>) {
    forall i, j | 0 <= i < j < |s| :: s[i] != s[j]
  }

  lemma GrantsStep(values: seq<string>, v: string)
    ensures Grants(values + [v]) == Grants(values) + (if TrimSpace(v) == "" then {} else {TrimSpace(v)})
  {
    var t := TrimSpace(v);
    assert v in values + [v];
    forall p ensures p in Grants(values + [v]) <==> p in Grants(values) || (t != "" && p == t) {
    }
  }

  lemma FirstOccurrencesStep(values: seq<string>, v: string)
    ensures var before, t := FirstOccurrences(values), TrimSpace(v);
      FirstOccurrences(values + [v]) == if t == "" || t in before then before else before + [t]
  {
    assert (values + [v])[..|values|] == values;
  }

  lemma {:induction false} FirstOccurrencesMembers(values: seq<string>, p: string)
    ensures p in FirstOccurrences(values) <==> p in Grants(values)
  {
    if values != [] {
      var rest, last := values[..|values| - 1], values[|values| - 1];
      assert values == rest + [last];
      FirstOccurrencesMembers(rest, p);
      FirstOccurrencesStep(rest, last);
      GrantsStep(rest, last);
    }
  }

  lemma {:induction false} FirstOccurrencesDistinct(values: seq<string>)
    ensures Distinct(FirstOccurrences(values))
  {
    if values != [] {
      FirstOccurrencesDistinct(values[..|values| - 1]);
    }
  }

  lemma FirstOccurrencesMeaning(values: seq<string>)
    ensures Distinct(FirstOccurrences(values))
    ensures forall v :: v in FirstOccurrences(values) <==> v in Grants(values)
  {
    FirstOccurrencesDistinct(values);
    forall v ensures v in FirstOccurrences(values) <==> v in Grants(values) {
      FirstOccurrencesMembers(values, v);
    }
  }

  lemma {:induction false} FirstOccurrencesFixed(values: seq<string>)
    requires Distinct(values) && forall v | v in values :: v != "" && Trimmed(v)
    ensures FirstOccurrences(values) == values
  {
    if values != [] {
      var rest, last := values[..|values| - 1], values[|values| - 1];
      assert values == rest + [last];
      assert last in values && forall v | v in rest :: v in values;
      assert Distinct(rest);
      FirstOccurrencesFixed(rest);
    }
  }

  /** Cleaning yields distinct, trimmed, nonempty entries, keeps the grants (or the wildcard
      for all of them), and cleaning again changes nothing. */
  lemma CleanedMeaning(values: seq<string>)
    ensures Distinct(Cleaned(values))
    ensures forall v | v in Cleaned(values) :: v != "" && Trimmed(v)
    ensures PERMISSION_ALL in Cleaned(values) <==> Cleaned(values) == [PERMISSION_ALL]
    ensures Grants(Cleaned(values)) ==
      if PERMISSION_ALL in Grants(values) then {PERMISSION_ALL} else Grants(values)
    ensures Cleaned(Cleaned(values)) == Cleaned(values)
  {
    FirstOccurrencesMeaning(values);
    FirstOccurrencesFixed([PERMISSION_ALL]);
    var c := Cleaned(values);
    assert TrimSpace(PERMISSION_ALL) == PERMISSION_ALL;
    forall v | v in c ensures v != "" && Trimmed(v) {
      if c != [PERMISSION_ALL] {
        var w :| w in values && TrimSpace(w) == v && v != "";
        TrimSpaceTrims(w);
      }
    }
    FirstOccurrencesFixed(c);
    FirstOccurrencesMeaning(c);
    forall v ensures v in Grants(c) <==> v in c {
    }
  }

  /** `cleanPermissions`. */
  method CleanPermissions(values: seq<string>) returns (out: seq<string>)
    ensures out == Cleaned(values)
  {
    out := [];
    var seen: set<string> := {};
    for i := 0 to |values|
      invariant Listed(values[..i], seen, out)
    {
      var value := TrimSpace(values[i]);
      ListedStep(values[..i], seen, out, values[i]);
      assert values[..i + 1] == values[..i] + [values[i]];
      if value == "" {
        continue;
      }
      if value == PERMISSION_ALL {
        assert values[i] in values;
        return [PERMISSION_ALL];
      }
      if value in seen {
        continue;
      }
      seen := seen + {value};
      out := out + [value];
    }
    assert values[..|values|] == values;
  }

  // ------------------------------------------------------------------- the policy

  type Policy = map<nat, set<string>>

  /** Each role ID with what the last role of that ID grants. */
  function PolicyOf(roles: seq<Role>): Policy {
    if roles == [] then map[]
    else
      var last := roles[|roles| - 1];
      PolicyOf(roles[..|roles| - 1])[last.id := Grants(last.permissions)]
  }

  method NewPolicy(roles: seq<Role>) returns (policy: Policy)
    ensures policy == PolicyOf(roles)
  {
    policy := map[];
    for i := 0 to |roles|
      invariant policy == PolicyOf(roles[..i])
    {
      var role := roles[i];
      var permissions: set<string> := {};
      for j := 0 to |role.permissions|
        invariant permissions == Grants(role.permissions[..j])
      {
        assert role.permissions[..j + 1] == role.permissions[..j] + [role.permissions[j]];
        var permission := TrimSpace(role.permissions[j]);
        if permission == "" {
          continue;
        }
        permissions := permissions + {permission};
      }
      assert role.permissions[..|role.permissions|] == role.permissions;
      assert roles[..i + 1][..i] == roles[..i];
      policy := policy[role.id := permissions];
    }
    assert roles[..|roles|] == roles;
  }

  /** Whether a set of grants covers the permission. */
  predicate Covers(grants: set<string>, permission: string) {
    PERMISSION_ALL in grants || permission in grants
  }

  /** Whether some of the roles covers the trimmed, nonempty permission. */
  predicate PolicyAllows(policy: Policy, roleIDs: seq<nat>, permission: string) {
    var p := TrimSpace(permission);
    p != "" && exists id | id in roleIDs :: id in policy && Covers(policy[id], p)
  }

  /** `Policy.Allows`. */
  method Allows(policy: Policy, roleIDs: seq<nat>, permission: string) returns (ok: bool)
    ensures ok == PolicyAllows(policy, roleIDs, permission)
    ensures ok <==> TrimSpace(permission) != "" && exists id | id in roleIDs && id in policy ::
      "*" in policy[id] || TrimSpace(permission) in policy[id]
  {
    var p := TrimSpace(permission);
    if p == "" {
      return false;
    }
    for i := 0 to |roleIDs|
      invariant forall k | 0 <= k < i :: !(roleIDs[k] in policy && Covers(policy[roleIDs[k]], p))
    {
      if roleIDs[i] !in policy {
        continue;
      }
      if PERMISSION_ALL in policy[roleIDs[i]] {
        return true;
      }
      if p in policy[roleIDs[i]] {
        return true;
      }
    }
    return false;
  }

  // ------------------------------------------------------------- the profile's list

  /** The permission entries of the roles with one of the IDs, in a row. */
  function Held(roles: seq<Role>, roleIDs: set<nat>): seq<string> {
    if roles == [] then []
    else
      var last := roles[|roles| - 1];
      Held(roles[..|roles| - 1], roleIDs) + (if last.id in roleIDs then last.permissions else [])
  }

  function IDSet(ids: seq<nat>): set<nat> { set id | id in ids }

  lemma GrantsOfConcat(a: seq<string>, b: seq<string>)
    ensures Grants(a + b) == Grants(a) + Grants(b)
  {
  }

  lemma HeldPrefixWildcard(roles: seq<Role>, roleIDs: set<nat>, i: nat, j: nat)
    requires i < |roles| && roles[i].id in roleIDs
    requires j < |roles[i].permissions| && TrimSpace(roles[i].permissions[j]) == PERMISSION_ALL
    ensures PERMISSION_ALL in Grants(Held(roles, roleIDs))
    decreases |roles|
  {
    var last := roles[|roles| - 1];
    var before := Held(roles[..|roles| - 1], roleIDs);
    GrantsOfConcat(before, if last.id in roleIDs then last.permissions else []);
    if i < |roles| - 1 {
      HeldPrefixWildcard(roles[..|roles| - 1], roleIDs, i, j);
    } else {
      assert last.permissions[j] in last.permissions;
    }
  }

  lemma HeldStep(roles: seq<Role>, roleIDs: set<nat>, i: nat)
    requires i < |roles|
    ensures Held(roles[..i + 1], roleIDs) ==
      if roles[i].id in roleIDs then Held(roles[..i], roleIDs) + roles[i].permissions else Held(roles[..i], roleIDs)
  {
    assert roles[..i + 1][..i] == roles[..i];
  }

  /** `permissionsForRoles`: the held permissions of all roles, cleaned as one list. */
  method PermissionsForRoles(roles: seq<Role>, roleIDs: seq<nat>) returns (out: seq<string>)
    ensures out == Cleaned(Held(roles, IDSet(roleIDs)))
  {
    var roleSet := IDSet(roleIDs);
    var seen: set<string> := {};
    out := [];
    for i := 0 to |roles|
      invariant Listed(Held(roles[..i], roleSet), seen, out)
    {
      HeldStep(roles, roleSet, i);
      if roles[i].id !in roleSet {
        continue;
      }
      var wildcard;
      wildcard, seen, out := ListRolePermissions(roles, roleSet, i, seen, out);
      if wildcard {
        return [PERMISSION_ALL];
      }
    }
    assert roles[..|roles|] == roles;
  }

  /** The inner loop of `permissionsForRoles`, over the permissions of role `i`. */
  method ListRolePermissions(roles: seq<Role>, ghost roleSet: set<nat>, i: nat, seen: set<string>, out: seq<string>)
    returns (wildcard: bool, seen': set<string>, out': seq<string>)
    requires i < |roles| && roles[i].id in roleSet && Listed(Held(roles[..i], roleSet), seen, out)
    ensures wildcard ==> PERMISSION_ALL in Grants(Held(roles, roleSet))
    ensures !wildcard ==> Listed(Held(roles[..i], roleSet) + roles[i].permissions, seen', out')
  {
    var permissions := roles[i].permissions;
    ghost var before := Held(roles[..i], roleSet);
    assert before + permissions[..0] == before;
    wildcard, seen', out' := false, seen, out;
    for j := 0 to |permissions|
      invariant !wildcard && Listed(before + permissions[..j], seen', out')
    {
      var permission := TrimSpace(permissions[j]);
      ListedStep(before + permissions[..j], seen', out', permissions[j]);
      assert before + permissions[..j + 1] == before + permissions[..j] + [permissions[j]];
      if permission == "" {
        continue;
      }
      if permission == PERMISSION_ALL {
        HeldPrefixWildcard(roles, roleSet, i, j);
        return true, seen', out';
      }
      if permission in seen' {
        continue;
      }
      seen' := seen' + {permission};
      out' := out' + [permission];
    }
    assert permissions[..|permissions|] == permissions;
  }

  /** What the loops keep: `out` lists the entries so far, `seen` is the same as a set,
      and the wildcard has not occurred. */
  ghost predicate Listed(values: seq<string>, seen: set<string>, out: seq<string>) {
    out == FirstOccurrences(values) && seen == (set v | v in out) && PERMISSION_ALL !in Grants(values)
  }

  lemma ListedStep(values: seq<string>, seen: set<string>, out: seq<string>, v: string)
    requires Listed(values, seen, out)
    ensures var t := TrimSpace(v);
      t == PERMISSION_ALL ||
      if t == "" || t in seen then Listed(values + [v], seen, out)
      else Listed(values + [v], seen + {t}, out + [t])
  {
    GrantsStep(values, v);
    FirstOccurrencesStep(values, v);
  }

  /** `menuAllowed`: the empty permission is open to everyone. */
  predicate MenuAllowed(permission: string, allowed: set<string>) {
    permission == "" || Covers(allowed, permission)
  }

  // ----------------------------------------------------------------- they agree

  ghost predicate DistinctRoleIDs(roles: seq<Role>) {
    forall i, j | 0 <= i < j < |roles| :: roles[i].id != roles[j].id
  }

  /** The profile's list as a set. */
  function ProfileGrants(roles: seq<Role>, roleIDs: seq<nat>): set<string> {
    set p | p in Cleaned(Held(roles, IDSet(roleIDs)))
  }

  lemma {:induction false} HeldHas(roles: seq<Role>, roleIDs: set<nat>, i: nat, p: string)
    requires i < |roles| && roles[i].id in roleIDs && p in Grants(roles[i].permissions)
    ensures p in Grants(Held(roles, roleIDs))
  {
    var rest, last := roles[..|roles| - 1], roles[|roles| - 1];
    GrantsOfConcat(Held(rest, roleIDs), if last.id in roleIDs then last.permissions else []);
    if i < |rest| {
      HeldHas(rest, roleIDs, i, p);
    }
  }

  lemma {:induction false} HeldFrom(roles: seq<Role>, roleIDs: set<nat>, p: string) returns (i: nat)
    requires p in Grants(Held(roles, roleIDs))
    ensures i < |roles| && roles[i].id in roleIDs && p in Grants(roles[i].permissions)
  {
    var rest, last := roles[..|roles| - 1], roles[|roles| - 1];
    GrantsOfConcat(Held(rest, roleIDs), if last.id in roleIDs then last.permissions else []);
    if p in Grants(Held(rest, roleIDs)) {
      i := HeldFrom(rest, roleIDs, p);
    } else {
      i := |roles| - 1;
    }
  }

  /** No later role of the list has the same ID. */
  ghost predicate LastOfID(roles: seq<Role>, i: nat)
    requires i < |roles|
  {
    forall j | i < j < |roles| :: roles[j].id != roles[i].id
  }

  /** The policy of an ID is what the last role of that ID grants. */
  lemma {:induction false} PolicyIsOfLast(roles: seq<Role>, i: nat)
    requires i < |roles| && LastOfID(roles, i)
    ensures roles[i].id in PolicyOf(roles) && PolicyOf(roles)[roles[i].id] == Grants(roles[i].permissions)
  {
    var n := |roles| - 1;
    if i < n {
      assert roles[n].id != roles[i].id;
      PolicyIsOfLast(roles[..n], i);
    }
  }

  lemma {:induction false} LastRole(roles: seq<Role>, id: nat) returns (i: nat)
    requires exists k | 0 <= k < |roles| :: roles[k].id == id
    ensures i < |roles| && roles[i].id == id && LastOfID(roles, i)
  {
    i := |roles| - 1;
    if roles[i].id != id {
      var k :| 0 <= k < |roles| && roles[k].id == id;
      assert roles[..i][k].id == id;
      i := LastRole(roles[..i], id);
    }
  }

  lemma {:induction false} PolicyKnows(roles: seq<Role>, id: nat)
    ensures id in PolicyOf(roles) <==> exists k | 0 <= k < |roles| :: roles[k].id == id
  {
    if roles != [] {
      var n := |roles| - 1;
      PolicyKnows(roles[..n], id);
      if k :| 0 <= k < |roles| && roles[k].id == id {
        assert k == n || roles[..n][k].id == id;
      }
    }
  }

  /** Covering is the same for a list and for its cleaned form. */
  lemma CleanedCovers(values: seq<string>, p: string)
    ensures Covers((set v | v in Cleaned(values)), p) <==> Covers(Grants(values), p)
  {
    FirstOccurrencesMeaning(values);
    var c := set v | v in Cleaned(values);
    if PERMISSION_ALL in Grants(values) {
      assert PERMISSION_ALL in Cleaned(values);
    } else {
      assert c == Grants(values);
    }
  }

  /** Some role with one of the IDs covers the permission. */
  ghost predicate SomeCovers(roles: seq<Role>, roleIDs: seq<nat>, p: string) {
    exists i | 0 <= i < |roles| :: roles[i].id in roleIDs && Covers(Grants(roles[i].permissions), p)
  }

  /** So does some role that is the last of its ID. */
  ghost predicate LastCovers(roles: seq<Role>, roleIDs: seq<nat>, p: string) {
    exists i | 0 <= i < |roles| ::
      LastOfID(roles, i) && roles[i].id in roleIDs && Covers(Grants(roles[i].permissions), p)
  }

  lemma AllowsMeaning(roles: seq<Role>, roleIDs: seq<nat>, permission: string)
    requires TrimSpace(permission) != ""
    ensures PolicyAllows(PolicyOf(roles), roleIDs, permission) <==>
      LastCovers(roles, roleIDs, TrimSpace(permission))
  {
    var p := TrimSpace(permission);
    if PolicyAllows(PolicyOf(roles), roleIDs, permission) {
      var id :| id in roleIDs && id in PolicyOf(roles) && Covers(PolicyOf(roles)[id], p);
      PolicyKnows(roles, id);
      var i := LastRole(roles, id);
      PolicyIsOfLast(roles, i);
    }
    if LastCovers(roles, roleIDs, p) {
      var i :| 0 <= i < |roles| && LastOfID(roles, i) && roles[i].id in roleIDs &&
        Covers(Grants(roles[i].permissions), p);
      PolicyIsOfLast(roles, i);
    }
  }

  lemma ProfileMeaning(roles: seq<Role>, roleIDs: seq<nat>, p: string)
    requires p != ""
    ensures MenuAllowed(p, ProfileGrants(roles, roleIDs)) <==> SomeCovers(roles, roleIDs, p)
  {
    var held := Held(roles, IDSet(roleIDs));
    CleanedCovers(held, p);
    if Covers(Grants(held), p) {
      var q := if PERMISSION_ALL in Grants(held) then PERMISSION_ALL else p;
      var i := HeldFrom(roles, IDSet(roleIDs), q);
    }
    if SomeCovers(roles, roleIDs, p) {
      var i :| 0 <= i < |roles| && roles[i].id in roleIDs && Covers(Grants(roles[i].permissions), p);
      var q := if PERMISSION_ALL in Grants(roles[i].permissions) then PERMISSION_ALL else p;
      HeldHas(roles, IDSet(roleIDs), i, q);
    }
  }

  /** What the policy allows, the profile's list covers, whatever the role IDs. */
  lemma PolicyWithinProfile(roles: seq<Role>, roleIDs: seq<nat>, permission: string)
    requires PolicyAllows(PolicyOf(roles), roleIDs, permission)
    ensures MenuAllowed(TrimSpace(permission), ProfileGrants(roles, roleIDs))
  {
    AllowsMeaning(roles, roleIDs, permission);
    ProfileMeaning(roles, roleIDs, TrimSpace(permission));
  }

  /** The middleware's policy and the profile's list answer alike. */
  ghost predicate Agree(roles: seq<Role>, roleIDs: seq<nat>, permission: string) {
    PolicyAllows(PolicyOf(roles), roleIDs, permission) <==>
    MenuAllowed(TrimSpace(permission), ProfileGrants(roles, roleIDs))
  }

  /** About a nonempty permission the two answer alike exactly when it is not covered by
      earlier roles of repeated IDs only. */
  lemma AgreeExactly(roles: seq<Role>, roleIDs: seq<nat>, permission: string)
    requires TrimSpace(permission) != ""
    ensures Agree(roles, roleIDs, permission) <==>
      (SomeCovers(roles, roleIDs, TrimSpace(permission)) ==> LastCovers(roles, roleIDs, TrimSpace(permission)))
  {
    AllowsMeaning(roles, roleIDs, permission);
    ProfileMeaning(roles, roleIDs, TrimSpace(permission));
  }

  /** What a role grants is covered by the last role with its ID. */
  ghost predicate NothingShadowed(roles: seq<Role>) {
    forall i, j, p | 0 <= i < |roles| && 0 <= j < |roles| && roles[i].id == roles[j].id && LastOfID(roles, j) &&
      p in Grants(roles[i].permissions) :: Covers(Grants(roles[j].permissions), p)
  }

  /** The two answer alike about every user and every nonempty permission exactly when no
      role grants anything that the last role with its ID does not cover. */
  lemma AlwaysAgreeExactly(roles: seq<Role>)
    ensures (forall roleIDs, permission | TrimSpace(permission) != "" :: Agree(roles, roleIDs, permission)) <==>
      NothingShadowed(roles)
  {
    if NothingShadowed(roles) {
      forall roleIDs, permission | TrimSpace(permission) != "" ensures Agree(roles, roleIDs, permission) {
        UnshadowedAgree(roles, roleIDs, permission);
      }
    }
    if forall roleIDs, permission | TrimSpace(permission) != "" :: Agree(roles, roleIDs, permission) {
      forall i, j, p | 0 <= i < |roles| && 0 <= j < |roles| && roles[i].id == roles[j].id && LastOfID(roles, j) &&
        p in Grants(roles[i].permissions) ensures Covers(Grants(roles[j].permissions), p)
      {
        assert Agree(roles, [roles[i].id], p) by {
          GrantIsTrimmed(roles[i].permissions, p);
        }
        AgreementUnshadows(roles, i, j, p);
      }
    }
  }

  lemma GrantIsTrimmed(values: seq<string>, p: string)
    requires p in Grants(values)
    ensures p != "" && TrimSpace(p) == p
  {
    var v :| v in values && TrimSpace(v) == p;
    TrimSpaceTwice(v);
  }

  lemma AgreementUnshadows(roles: seq<Role>, i: nat, j: nat, p: string)
    requires i < |roles| && j < |roles| && roles[i].id == roles[j].id && LastOfID(roles, j)
    requires p in Grants(roles[i].permissions) && Agree(roles, [roles[i].id], p)
    ensures Covers(Grants(roles[j].permissions), p)
  {
    GrantIsTrimmed(roles[i].permissions, p);
    AgreeExactly(roles, [roles[i].id], p);
    assert roles[i].id in [roles[i].id];
    var k :| 0 <= k < |roles| && LastOfID(roles, k) && roles[k].id in [roles[i].id] &&
      Covers(Grants(roles[k].permissions), p);
    assert k == j;
  }

  lemma UnshadowedAgree(roles: seq<Role>, roleIDs: seq<nat>, permission: string)
    requires NothingShadowed(roles) && TrimSpace(permission) != ""
    ensures Agree(roles, roleIDs, permission)
  {
    var p := TrimSpace(permission);
    AgreeExactly(roles, roleIDs, permission);
    if SomeCovers(roles, roleIDs, p) {
      var i :| 0 <= i < |roles| && roles[i].id in roleIDs && Covers(Grants(roles[i].permissions), p);
      var q := if PERMISSION_ALL in Grants(roles[i].permissions) then PERMISSION_ALL else p;
      var j := LastRole(roles, roles[i].id);
      assert Covers(Grants(roles[j].permissions), q);
    }
  }

  /** In particular they do for roles with distinct IDs. */
  lemma PolicyAgreesWithProfile(roles: seq<Role>, roleIDs: seq<nat>, permission: string)
    requires DistinctRoleIDs(roles) && TrimSpace(permission) != ""
    ensures Agree(roles, roleIDs, permission)
  {
    assert NothingShadowed(roles);
    UnshadowedAgree(roles, roleIDs, permission);
  }

  /** The empty permission is where they differ: closed for the policy, open for a menu. */
  lemma EmptyPermissionDiffers(roles: seq<Role>, roleIDs: seq<nat>, permission: string)
    requires TrimSpace(permission) == ""
    ensures !PolicyAllows(PolicyOf(roles), roleIDs, permission)
    ensures MenuAllowed("", ProfileGrants(roles, roleIDs))
  {
  }

  // ------------------------------------------------------- cleaning changes nothing

  /** The same roles, some of them with their permission lists cleaned. */
  ghost predicate SomeCleaned(roles: seq<Role>, others: seq<Role>) {
    && |roles| == |others|
    && forall i | 0 <= i < |roles| ::
      || others[i] == roles[i]
      || others[i] == roles[i].(permissions := Cleaned(roles[i].permissions))
  }

  lemma {:induction false} CleaningKeepsCoverage(roles: seq<Role>, others: seq<Role>, id: nat, p: string)
    requires SomeCleaned(roles, others)
    ensures id in PolicyOf(roles) <==> id in PolicyOf(others)
    ensures id in PolicyOf(roles) ==> (Covers(PolicyOf(roles)[id], p) <==> Covers(PolicyOf(others)[id], p))
  {
    if roles != [] {
      var n := |roles| - 1;
      CleaningKeepsCoverage(roles[..n], others[..n], id, p);
      CleanedMeaning(roles[n].permissions);
      assert others[n].id == roles[n].id;
    }
  }

  /** Storing cleaned permission lists changes no decision. */
  lemma CleaningKeepsDecisions(roles: seq<Role>, others: seq<Role>, roleIDs: seq<nat>, permission: string)
    requires SomeCleaned(roles, others)
    ensures PolicyAllows(PolicyOf(roles), roleIDs, permission) <==>
      PolicyAllows(PolicyOf(others), roleIDs, permission)
  {
    forall id | id in roleIDs {
      CleaningKeepsCoverage(roles, others, id, TrimSpace(permission));
    }
  }
}
