/**
 What the permission checks answer, in terms of the stored roles alone: their IDs and
 the entries of their permission lists.
 */
module PermissionMeaning {
  import opened Domain
  import opened Permissions
  import opened Text

  /** The permission guard of the middleware: a route without a permission is open; every
      other one asks the policy built from the stored roles. */
  method PassesGuard(roles: seq<Role>, roleIDs: seq<nat>, permission: string) returns (ok: bool)
    ensures permission == "" ==> ok
    ensures permission != "" && TrimSpace(permission) == "" ==> !ok
    ensures TrimSpace(permission) != "" ==>
      (ok <==> exists i | 0 <= i < |roles| ::
        && roles[i].id in roleIDs
        && (forall j | i < j < |roles| :: roles[j].id != roles[i].id)
        && exists v | v in roles[i].permissions :: TrimSpace(v) == "*" || TrimSpace(v) == TrimSpace(permission))
  {
    if permission == "" {
      return true;
    }
    var policy := NewPolicy(roles);
    ok := Allows(policy, roleIDs, permission);
    if TrimSpace(permission) != "" {
      AllowsMeaning(roles, roleIDs, permission);
      LastCoversMeaning(roles, roleIDs, TrimSpace(permission));
    }
  }

  lemma CoversMeaning(values: seq<string>, p: string)
    requires p != ""
    ensures Covers(Grants(values), p) <==> exists v | v in values :: TrimSpace(v) == "*" || TrimSpace(v) == p
  {
  }

  /** An entry of role `i` is the wildcard or the permission. */
  ghost predicate Lists(roles: seq<Role>, i: nat, p: string)
    requires i < |roles|
  {
    exists v | v in roles[i].permissions :: TrimSpace(v) == "*" || TrimSpace(v) == p
  }

  lemma LastCoversMeaning(roles: seq<Role>, roleIDs: seq<nat>, p: string)
    requires p != ""
    ensures LastCovers(roles, roleIDs, p) <==> exists i | 0 <= i < |roles| ::
      && roles[i].id in roleIDs
      && (forall j | i < j < |roles| :: roles[j].id != roles[i].id)
      && Lists(roles, i, p)
  {
    forall i | 0 <= i < |roles| ensures Covers(Grants(roles[i].permissions), p) <==> Lists(roles, i, p) {
      CoversMeaning(roles[i].permissions, p);
    }
  }

  /** `menuAllowed` on the list of the profile: some role the user holds lists the permission. */
  method ProfileAllows(roles: seq<Role>, roleIDs: seq<nat>, permission: string) returns (ok: bool)
    ensures permission == "" ==> ok
    ensures permission != "" ==>
      (ok <==> exists i | 0 <= i < |roles| ::
        && roles[i].id in roleIDs
        && exists v | v in roles[i].permissions :: TrimSpace(v) == "*" || TrimSpace(v) == permission)
  {
    var permissions := PermissionsForRoles(roles, roleIDs);
    ok := MenuAllowed(permission, set p | p in permissions);
    if permission != "" {
      ProfileMeaning(roles, roleIDs, permission);
      SomeCoversMeaning(roles, roleIDs, permission);
    }
  }

  lemma SomeCoversMeaning(roles: seq<Role>, roleIDs: seq<nat>, p: string)
    requires p != ""
    ensures SomeCovers(roles, roleIDs, p) <==> exists i | 0 <= i < |roles| ::
      roles[i].id in roleIDs && Lists(roles, i, p)
  {
    forall i | 0 <= i < |roles| ensures Covers(Grants(roles[i].permissions), p) <==> Lists(roles, i, p) {
      CoversMeaning(roles[i].permissions, p);
    }
  }

  /** The wildcard alone when an entry trims to it, and otherwise every nonblank entry, trimmed,
      once, in the order in which they first occur. */
  ghost predicate IsCleanList(out: seq<string>, values: seq<string>) {
    && ((exists v | v in values :: TrimSpace(v) == "*") ==> out == ["*"])
    && ((forall v | v in values :: TrimSpace(v) != "*") ==> IsListOfEntries(out, values))
  }

  ghost predicate IsListOfEntries(out: seq<string>, values: seq<string>) {
    && (forall p :: p in out <==> p != "" && exists v | v in values :: TrimSpace(v) == p)
    && (forall a, b | 0 <= a < b < |out| :: out[a] != out[b])
    && (forall a, b, j | 0 <= a < b < |out| && 0 <= j < |values| && TrimSpace(values[j]) == out[b] ::
        exists i | 0 <= i < j :: TrimSpace(values[i]) == out[a])
  }

  lemma CleanedEntries(values: seq<string>)
    ensures IsCleanList(Cleaned(values), values)
  {
    FirstOccurrencesMeaning(values);
    if forall v | v in values :: TrimSpace(v) != "*" {
      forall a, b, j | 0 <= a < b < |Cleaned(values)| && 0 <= j < |values| &&
        TrimSpace(values[j]) == Cleaned(values)[b]
        ensures exists i | 0 <= i < j :: TrimSpace(values[i]) == Cleaned(values)[a]
      {
        var i := FirstOccurrencesInOrder(values, a, b, j);
      }
    }
  }

  lemma {:induction false} FirstOccurrencesInOrder(values: seq<string>, a: nat, b: nat, j: nat) returns (i: nat)
    requires a < b < |FirstOccurrences(values)| && j < |values|
    requires TrimSpace(values[j]) == FirstOccurrences(values)[b]
    ensures i < j && TrimSpace(values[i]) == FirstOccurrences(values)[a]
  {
    var n := |values| - 1;
    var rest := values[..n];
    FirstOccurrencesMeaning(values);
    if b < |FirstOccurrences(rest)| {
      if j < n {
        i := FirstOccurrencesInOrder(rest, a, b, j);
      } else {
        i := EntryOf(rest, a);
      }
    } else {
      assert j == n by {
        if j < n {
          OccursEarlier(rest, j);
        }
      }
      i := EntryOf(rest, a);
    }
  }

  lemma EntryOf(values: seq<string>, a: nat) returns (i: nat)
    requires a < |FirstOccurrences(values)|
    ensures i < |values| && TrimSpace(values[i]) == FirstOccurrences(values)[a]
  {
    FirstOccurrencesMeaning(values);
    assert FirstOccurrences(values)[a] in Grants(values);
    i :| 0 <= i < |values| && TrimSpace(values[i]) == FirstOccurrences(values)[a];
  }

  lemma OccursEarlier(values: seq<string>, j: nat)
    requires j < |values| && TrimSpace(values[j]) != ""
    ensures TrimSpace(values[j]) in FirstOccurrences(values)
  {
    FirstOccurrencesMeaning(values);
    assert values[j] in values;
  }
}
