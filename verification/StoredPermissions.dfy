/**
 The policy and the profile's list over the roles a store hands out, which is what
 both are made from: there they agree without further conditions.
 */
module StoredPermissions {
  import opened Accounts
  import opened Domain
  import opened MenuFilter
  import opened MenuForest
  import opened Paging
  import opened Permissions
  import opened ServiceModel
  import opened Text

  /** No store hands out two roles with one ID. */
  lemma StoredRolesDistinct(s: State)
    requires Accounts.Valid(s)
    ensures DistinctRoleIDs(RoleList(s))
  {
    SelectAscending(s.roles, ROLE_ID, ANY_ROLE, s.roles.next);
  }

  /** In every valid state the middleware and the profile answer alike about every user and
      every nonempty permission. */
  lemma StoredPolicyAgrees(s: State, roleIDs: seq<nat>, permission: string)
    requires Accounts.Valid(s) && TrimSpace(permission) != ""
    ensures PolicyAllows(PolicyOf(RoleList(s)), roleIDs, permission) <==>
      MenuAllowed(TrimSpace(permission), ProfileGrants(RoleList(s), roleIDs))
  {
    StoredRolesDistinct(s);
    PolicyAgreesWithProfile(RoleList(s), roleIDs, permission);
  }

  /** So do they after every run of store calls. */
  lemma AgreementSurvivesEveryRun(s: State, calls: seq<Call>, roleIDs: seq<nat>, permission: string)
    requires Accounts.Valid(s) && TrimSpace(permission) != ""
    ensures Agree(RoleList(AfterAll(s, calls)), roleIDs, permission)
  {
    EveryRunKeepsValid(s, calls);
    StoredPolicyAgrees(AfterAll(s, calls), roleIDs, permission);
  }

  /** A menu with a trimmed, nonblank permission is allowed by itself exactly when the middleware
      grants the user that permission. */
  lemma StoredMenuAllowedExactly(s: State, roleIDs: seq<nat>, m: Menu)
    requires Accounts.Valid(s) && Trimmed(m.permission) && m.permission != ""
    ensures SelfAllowed(m, ProfileGrants(RoleList(s), roleIDs)) <==>
      PolicyAllows(PolicyOf(RoleList(s)), roleIDs, m.permission)
  {
    TrimSpaceFixed(m.permission);
    StoredPolicyAgrees(s, roleIDs, m.permission);
  }

  /** Whoever is granted the permission of a menu that is visible with all its ancestors sees it. */
  lemma StoredMenuIsListed(s: State, ms: seq<Menu>, roleIDs: seq<nat>, m: Menu)
    requires Accounts.Valid(s) && m in VisibleNodes(ms) && Trimmed(m.permission) && m.permission != ""
    requires PolicyAllows(PolicyOf(RoleList(s)), roleIDs, m.permission)
    ensures var allowed := ProfileGrants(RoleList(s), roleIDs);
      Pruned(m, allowed) in Nodes(Filtered(ms, allowed))
  {
    var allowed := ProfileGrants(RoleList(s), roleIDs);
    StoredMenuAllowedExactly(s, roleIDs, m);
    VisibleIsNotHidden(ms, m);
    FilteredExactly(ms, allowed, Pruned(m, allowed));
  }

  lemma {:induction false} VisibleIsNotHidden(ms: seq<Menu>, m: Menu)
    requires m in VisibleNodes(ms)
    ensures !m.hidden
  {
    if m in VisibleNodes(ms[1..]) {
      VisibleIsNotHidden(ms[1..], m);
    } else if m != ms[0] {
      VisibleIsNotHidden(ms[0].children, m);
    }
  }

  /** A menu a user sees without anything below it has a permission that the middleware
      grants the user, or a blank one. */
  lemma StoredLeafIsPermitted(s: State, ms: seq<Menu>, roleIDs: seq<nat>, r: Menu)
    requires Accounts.Valid(s)
    requires r in Nodes(Filtered(ms, ProfileGrants(RoleList(s), roleIDs))) && r.children == []
    ensures TrimSpace(r.permission) == "" || PolicyAllows(PolicyOf(RoleList(s)), roleIDs, r.permission)
  {
    StoredRolesDistinct(s);
    ListedLeafIsPermitted(ms, RoleList(s), roleIDs, r);
  }
}
