# GOV2: a verified model

GOV2 is an administration framework in Go with a Vue front end. This project models the parts
of it that keep state or carry an algorithm, and proves what they are for:

- **Menus.** A table of parent pointers edited by create, update and delete; a walk up the
  parents before any re-parenting; a tree builder that appends copies in place; a filter by
  permission. Proved: every run of calls keeps a finite forest, which is what the walk's
  termination rests on; an update is refused exactly when it would close a cycle; the memory
  and the SQL adapter refuse the same re-parentings; exactly which menus reach the returned
  forest, and exactly which are listed whatever order a map hands them out in.
- **Users and roles.** Services that check and then write, over a paginated store. Proved: keys
  stay unique and IDs are never reused in every run of store calls, references stay valid in
  every run of service calls, and an active administrator stays in every such run that does not
  take the code from the admin role, bootstrap commands included. For a role update that is
  carried out, that condition is exact.
- **Migrations.** Any number of concurrent runners with stale reads, failures and restarts,
  and the loop of one runner, which is proved to be a runner of the protocol. Proved: the
  executed scripts are always the first files of the sorted list, each once, and equal the
  version table; the order is that of the names, character by character.
- **Modules.** The two-pass validator with its maps, proved to accept exactly the lists that
  obey the rules, which are written out.
- **Passwords.** PBKDF2 with its in-place XOR loops, proved to be section 5.2 of RFC 8018.
- **Permissions.** Three computations of what a user may do — the middleware's policy, the
  profile's list and the menu filter — which agree about nonblank permissions on every store,
  and what each of them allows in terms of the stored roles.
- **Responses.** The front end's checker over a cyclic schema table, proved to throw exactly
  when some object that the schemas lead to shows one of six faults.
- **Metrics.** Label escaping, with an inverse.

Code that updates state in place is modelled by classes, arrays and loops (`MemoryStore`,
`Services`, `SystemServices`, `MenuTree`, `MigrationRunner`, `Pbkdf2`, `ModuleRegistry`); each
such method is proved to do what a function of the old state says, and the theorems are about
those functions (`Accounts`, `MenuStore`, `KeyedTables`, `ServiceModel`, `Bootstrap`).

What those functions compute is stated a second time without them, in fields, characters,
numbers and list positions, with the errors, the effects and what stays as it was:
`ServiceEffects`, `BootstrapEffects` and `TableEffects` for the calls, `MenuMeaning`,
`PermissionMeaning`, `ResponseMeaning`, `PasswordMeaning`, `PlainRules`, `UserListing` and
`TextMeaning` for the rest.

Conventions. Strings are sequences of characters. Case folding and lower-casing are exact on
ASCII and use two tables without a stated content elsewhere (`Text.FOLD_TABLE`,
`Text.LOWER_TABLE`), so the results hold for any content. Iterating over a Go map is taking its
keys in an arbitrary order. `sort.Slice` is an insertion sort (`Sorting`); where it leaves equal
elements in any order, the theorems about listings quantify over all of them. A password hash
is random in the code; here the salt is a parameter.
The encoding of octets is any function with a round trip and no `$` in its results, as base64
has (section 5 of RFC 4648). A slice expression out of range, which panics in Go, is `None`.

## Where the code does not do what it is meant to do

The code is followed in each case, and the exact condition is proved.

- `buildMenuTree` copies a child into its parent by value. A menu below the second level is lost
  unless list positions increase going up from it (`MenuSurvival.ForestHoldsExactlyTheShown`). In
  terms of sort values see `MenuOrders.AlwaysListed` and `MenuOrders.SometimesListed` for the memory
  store, where the order of the map decides between them, and `MenuListing.SqlListing`.
- The service's cycle check works on that listing, so it misses lost menus
  (`MenuListing.ServiceCheckMeaning`). The store's own check covers this
  (`MenuStore.UpdateRefusesExactlyCycles`).
- `paginate` panics when the offset wraps below zero, because the page number is not capped
  (`Paging.PaginateExactly`, `Paging.HugePagePanics`).
- Taking the code from the admin role leaves nobody an administrator
  (`LastAdministrator.ChangeRoleExactly`; `AdministratorRuns.RenamedAdminRoleIsLost` is an instance).
- A migration runner to which nothing happens may still return an error, when another one
  commits a file between its check and its insert (`MigrationProtocol.OvertakenExactly`;
  `MigrationProtocol.OvertakenRunnerFails` is an instance).
- Where folding and lower-casing differ, the two adapters may disagree about a menu name
  (`MenuStore.AdaptersAgreeExactly`; `MenuStore.AdaptersMayDisagree` is an instance).

For roles with a repeated ID the policy and the profile may differ (`Permissions.AlwaysAgreeExactly`),
but no store hands out such a list (`StoredPermissions.StoredPolicyAgrees`).

## Model

| member | source | states |
|---|---|---|
| `MenuTree.BuildMenuTree` | internal/store/memory/store.go:793-822 | The pointer-and-append loops (on arrays) return `Forest(items)`: a recursive account, independent of the loops, of what each node holds after every append by value. Lists with repeated IDs or cycles are covered as far as the appends go; siblings equal in sort value and ID, which the code's unstable sort leaves in any order, are put in one order here |
| `MenuTree.IndexNodes` | internal/store/memory/store.go:794-801 | Nodes are copies without children, and `byID` maps an ID to the last menu that has it |
| `MenuTree.AppendAll` | internal/store/memory/store.go:804-813 | In place: after the loop, node `k` is what the recursive account says it is after all appends, including those that came too late to be seen by the copy in its parent |
| `MenuTree.SortMenus` | internal/store/memory/store.go:824-834 | Sorting the siblings first and then each list of children is the sorted forest at every depth, and the list returned stands by sort value and, where those are equal, by ID |
| `MenuTree.SortThenChildren` | internal/store/memory/store.go:824-834 | Sorting a list and then its members' children is the same forest as sorting from below, which is how the rest of the proof sees it |
| `MenuSurvival.LiveNodeHolds` | internal/store/memory/store.go:804-813 | At every moment of the append loop, a node that can still reach the result holds exactly the menus whose home it is |
| `MenuSurvival.ShownIffHome` | internal/store/memory/store.go:804-819 | A menu has a home at the end exactly when list positions strictly increase going up from it to the level directly below its root |
| `MenuSurvival.ForestHoldsExactlyTheShown` | internal/store/memory/store.go:793-822 | For every list: the multiset of menus in the returned forest is exactly the shown ones, so nothing appears twice and exactly the other menus are lost |
| `MenuSurvival.NothingLostIffAllShown` | internal/store/memory/store.go:793-822 | The forest holds the whole list if and only if every menu is shown |
| `MenuSurvival.TwoLevelsLoseNothing` | internal/store/memory/store.go:793-822 | Lists of two levels lose nothing in any order |
| `MenuSurvival.ChildrenBeforeParentsLoseNothing` | internal/store/memory/store.go:793-822 | Lists with children before their parents lose nothing at any depth |
| `MenuForest.ForestWellFormed` | internal/store/memory/store.go:793-834 | With distinct IDs the result is properly nested, sorted at every level, without repeats, and its top level is exactly the menus without a parent in it; `MenuMeaning.ForestInOrder` says what the order is |
| `MenuForest.SameMenusSameForest` | internal/store/memory/store.go:793-834 | A well-formed forest is determined by the multiset of its menus |
| `MenuForest.OrderDoesNotMatter` | internal/store/memory/store.go:793-834 | Two orders of the same menus from which nothing is lost give the same forest |
| `MenuForest.TwoLevelOrderDoesNotMatter` | internal/store/memory/store.go:793-834 | For two-level lists the result does not depend on the input order at all |
| `MenuMeaning.ForestInOrder` | internal/store/memory/store.go:824-834 | For every list, at the top and below every node: of two siblings the earlier has the lower sort value, or the same and no higher ID |
| `MenuMeaning.ForestFields` | internal/store/memory/store.go:793-822 | Every node has all ten fields of a shown menu of the list, and every shown menu has such a node |
| `MenuMeaning.ForestParents` | internal/store/memory/store.go:804-819 | A child names the ID of the node it lies below, which is not 0; a menu at the top names 0 or an ID that is not in the list |
| `MenuStore.CreateKeepsValid` | internal/store/memory/store.go:425-438 | Creating a menu keeps the table a finite forest with unique names and IDs below the counter |
| `MenuStore.UpdateKeepsValid` | internal/store/memory/store.go:440-471 | So does re-parenting: every menu still reaches 0, also those below the moved one |
| `MenuStore.DeleteKeepsValid` | internal/store/memory/store.go:473-487 | So does deletion, which is refused while a menu names the deleted one as its parent |
| `MenuStore.UpdateRefusesExactlyCycles` | internal/store/memory/store.go:451-458 | With a free name and a stored parent, an update is accepted if and only if the re-parented table is still a forest: the guard refuses every cycle and nothing else |
| `MenuStore.EveryRunKeepsForest` | internal/store/memory/store.go:425-487 | Every sequence of menu calls keeps the forest, and every nonzero parent is stored |
| `MenuStore.NoCycle` | internal/store/memory/store.go:742-757 | No menu of a forest is its own ancestor, at any distance |
| `MenuStore.WalkAgreesWithQuery` | internal/store/sqlstore/store.go:1108-1123 | Being a proper ancestor, which is what the parent walk is proved to answer on forests, is for different menus the same as being in the closure of the recursive query, on any table |
| `MenuStore.QueryRunsDry` | internal/store/sqlstore/store.go:1108-1123 | On a forest the recursive query, which has no guard of its own, comes to an empty round |
| `MenuStore.ParentGuardsAgree` | internal/store/sqlstore/store.go:430-444 | On a forest both adapters refuse the same re-parentings, with the same error, though they check in different orders |
| `MenuStore.AdaptersAgreeExactly` | internal/store/sqlstore/store.go:420-450 | Both adapters take the same decision on an update, with the same error, if and only if folding and lower-casing find the same name clash (or the parent is refused as a conflict anyway) and the permission is blank, registered or not reached |
| `MenuStore.AdaptersAgree` | internal/store/sqlstore/store.go:420-450 | In particular for ASCII names and registered permissions |
| `MenuStore.NoIDIsReused` | internal/store/memory/store.go:702-708 | In every run of menu calls, an ID that is gone stays gone |
| `MenuListing.ContainsDescendantIsBelow` | internal/service/service.go:874-896 | `menuTreeContainsDescendant` is true exactly when some node with the root's ID has the candidate below it at some depth |
| `MenuListing.ServiceCheckMeaning` | internal/service/service.go:482-498 | On the listed forest the service's check is true exactly when the new parent is a proper descendant and both are actually listed |
| `MenuListing.ServiceRejectionImpliesStoreRejection` | internal/service/service.go:482-498 | Whatever the service refuses as a cycle, the store would have refused too, for every order in which the menus were listed |
| `MenuListing.ListedIffShown` | internal/store/memory/store.go:400-412 | A stored menu is in the listing exactly when it is shown |
| `MenuOrders.AlwaysListed` | internal/store/memory/store.go:400-412 | A menu is in every listing the memory store may return, whatever order the map hands out, if and only if sort values strictly increase going up from it to the level below the root |
| `MenuOrders.SometimesListed` | internal/store/memory/store.go:400-412 | It is in some listing if and only if sort values nowhere decrease on that way |
| `MenuOrders.UndecidedExactly` | internal/store/memory/store.go:400-412 | Two orders of the map give one listing with the menu and one without it if and only if the way up never decreases and somewhere stays level |
| `MenuOrders.NothingEverLost` | internal/store/memory/store.go:400-412 | `ListMenus` returns every stored menu for every order of the map if and only if every menu rises strictly |
| `MenuMeaning.AlwaysListedBySort` | internal/store/memory/store.go:400-412 | In sort values: the menu at the foot of a chain of parents is in every listing if and only if each menu of the chain more than one below the root has a lower sort value than its parent |
| `MenuMeaning.SometimesListedBySort` | internal/store/memory/store.go:400-412 | And in some listing if and only if none of them has a higher one |
| `MenuOrders.ArrangedIsPossible` | internal/store/memory/store.go:400-412 | The sort leaves ties open: any way to break them comes from some order of the map |
| `MenuListing.SqlListing` | internal/store/sqlstore/store.go:351-374 | The SQL adapter, ordering by sort value and ID, lists a menu exactly when that pair strictly increases going up |
| `MenuMeaning.SqlListedBySort` | internal/store/sqlstore/store.go:351-374 | In sort values and IDs: the SQL adapter lists the menu at the foot of a chain if and only if each menu more than one below the root has a lower sort value than its parent, or the same and a lower ID |
| `MenuListing.DeepMenuSortedAfterItsParentIsLost` | internal/store/memory/store.go:400-412 | A menu sorted after a parent that is no root is missing from every listing, and the service's cycle check is blind to it |
| `MenuFilter.Walk` | internal/httpapi/api.go:1016-1033 | The recursive walk returns the filtered forest defined by mapping and selecting with `Kept` |
| `MenuFilter.MenusForPermissions` | internal/httpapi/api.go:1010-1036 | The same for the list of permissions turned into a set |
| `MenuFilter.FilteredExactly` | internal/httpapi/api.go:1010-1036 | The nodes of the filtered forest are exactly the pruned forms of the menus that are visible with all their ancestors and are kept |
| `MenuFilter.KeptHasPath` | internal/httpapi/api.go:1010-1036 | A kept menu has a way down through visible menus to one that is allowed by itself |
| `MenuFilter.PathMeansKept` | internal/httpapi/api.go:1010-1036 | And every such way makes a menu kept |
| `MenuFilter.FilteredIsTakenFrom` | internal/httpapi/api.go:1010-1036 | The filter only takes menus out: the rest stay in order and nesting |
| `MenuFilter.FilteredMonotone` | internal/httpapi/api.go:1010-1036 | More permissions never hide a menu |
| `MenuFilter.FilteredIdempotent` | internal/httpapi/api.go:1010-1036 | Filtering twice is filtering once |
| `MenuMeaning.SeenExactly` | internal/httpapi/api.go:1016-1046 | A user sees, with all fields, exactly the menus that are visible with all their ancestors and from which a way down through visible menus leads to one whose permission is among the allowed ones (or `*` is), or that has none and is no layout |
| `Permissions.CleanPermissions` | internal/service/service.go:574-592 | The loop with its seen-map and early exit returns the distinct trimmed nonempty entries in order, or the wildcard alone |
| `Permissions.CleanedMeaning` | internal/service/service.go:574-592 | The result is duplicate-free, trimmed and nonempty, is exactly the wildcard when one is present, grants the same otherwise, and cleaning again changes nothing |
| `PermissionMeaning.CleanedEntries` | internal/service/service.go:574-592 | `*` alone when some entry trims to it; otherwise the trimmed nonblank entries, each once, in the order in which they first occur |
| `Permissions.NewPolicy` | internal/security/rbac.go:13-27 | The nested maps are the grants of each role, later roles with the same ID over earlier ones |
| `Permissions.Allows` | internal/security/rbac.go:29-47 | True exactly when the trimmed permission is not empty and the policy of some of the role IDs holds it or `*` |
| `Permissions.PermissionsForRoles` | internal/httpapi/api.go:981-1008 | The early exits and the seen-map give the cleaned concatenation of the held roles' lists |
| `PermissionMeaning.PassesGuard` | internal/httpapi/api.go:889-897 | The guard of the middleware, on the stored roles: for a nonblank permission it passes if and only if some role that is the last of its ID, with its ID among the user's, has an entry that trims to `*` or to the trimmed permission; an empty permission always passes, another blank one never |
| `PermissionMeaning.ProfileAllows` | internal/httpapi/api.go:981-1047 | What the profile's list allows, on the stored roles: a nonempty permission if and only if some role held, whichever, has an entry that trims to `*` or to it |
| `Permissions.AgreeExactly` | internal/security/rbac.go:13-47 | For any role list and nonempty permission the middleware's policy and the profile's list agree if and only if the permission is not covered by earlier roles of repeated IDs only |
| `Permissions.AlwaysAgreeExactly` | internal/security/rbac.go:13-27 | For a role list they agree about every user and every nonempty permission if and only if no role grants what the last role with its ID does not cover |
| `Permissions.PolicyAgreesWithProfile` | internal/security/rbac.go:13-47 | So they agree for roles with distinct IDs |
| `StoredPermissions.StoredRolesDistinct` | internal/store/memory/store.go:319-331 | The roles of every valid store have distinct IDs |
| `StoredPermissions.StoredPolicyAgrees` | internal/httpapi/api.go:981-1047 | For the roles of every valid store the two agree about every user and every nonempty permission, without further conditions |
| `StoredPermissions.AgreementSurvivesEveryRun` | internal/httpapi/api.go:981-1047 | So they do after every run of store calls |
| `StoredPermissions.StoredMenuAllowedExactly` | internal/httpapi/api.go:1022-1024 | The third computation, the menu filter's, agrees as well: a menu with a trimmed nonblank permission is allowed by itself if and only if the middleware grants that permission |
| `StoredPermissions.StoredMenuIsListed` | internal/httpapi/api.go:1010-1047 | So whoever is granted the permission of a menu that is visible with all its ancestors sees it |
| `StoredPermissions.StoredLeafIsPermitted` | internal/httpapi/api.go:1010-1047 | For the roles of every valid store: a menu that a user sees without anything below it has a blank permission, or one the middleware grants the user |
| `Permissions.PolicyWithinProfile` | internal/security/rbac.go:13-47 | For every role list: what the policy allows, the profile covers |
| `Permissions.EmptyPermissionDiffers` | internal/security/rbac.go:29-47 | The blank permission is where they differ by design: closed for the policy, open for a menu |
| `Permissions.CleaningKeepsDecisions` | internal/service/service.go:574-592 | Replacing any roles' lists by their cleaned forms changes no decision, for any users' roles and any permission |
| `Accounts.ConflictIsClash` | internal/store/memory/store.go:261-277 | `userConflicts` is true exactly when two different users share a login name, or a nonblank e-mail address or telephone number, under the code's comparison |
| `Accounts.CallKeepsValid` | internal/store/memory/store.go:215-398 | Every store call keeps user keys and role codes pairwise different and IDs below the counters |
| `Accounts.EveryRunKeepsValid` | internal/store/memory/store.go:215-398 | So does every sequence of calls, in any interleaving of services |
| `Accounts.LoginNameUnique` | internal/store/memory/store.go:166-176 | In a valid table a login name names at most one user, so the search gives one answer whatever the order of the map |
| `KeyedTables.CreateKeyedKeepsValid` | internal/store/memory/store.go:516-527 | Dictionaries, and settings in the same way: creation keeps keys pairwise different and IDs below the counter |
| `KeyedTables.UpdateKeyedKeepsValid` | internal/store/memory/store.go:529-547 | So do updates and deletions |
| `KeyedTables.EveryRunKeepsValid` | internal/store/memory/store.go:516-615 | So does every run of calls on the table |
| `KeyedTables.KeyNamesOne` | internal/store/memory/store.go:503-514 | A key names one row at most |
| `StoreRuns.EveryRunKeepsValid` | internal/store/memory/store.go:215-615 | Every run of store calls on any of the tables, however the services interleave, keeps all unique keys unique, IDs below their counters and the menus a forest |
| `StoreRuns.NoIDIsReused` | internal/store/memory/store.go:686-724 | No run gives an ID of any table out twice |
| `StoreRuns.EveryReachableState` | internal/store/memory/store.go:38-164 | Both for every state that a seeded store can reach, and every continuation from there |
| `TableEffects.CreateMenuEffect` | internal/store/memory/store.go:425-438 | The name in use, then an unknown parent, or the menu under the next ID with the given fields and without children, and nothing else changed |
| `TableEffects.UpdateMenuEffect` | internal/store/memory/store.go:440-471 | The errors in order, or the nine fields of the update under the old ID and nothing else changed; refused as a parent are IDs that are not stored (0 apart), the menu itself and every menu with it above on a way of stored parents |
| `TableEffects.DeleteMenuEffect` | internal/store/memory/store.go:473-487 | Gone and nothing else changed, unless it is not stored or some menu names it as its parent |
| `TableEffects.ValidMenusMeaning` | internal/store/memory/store.go:425-487 | What valid means for menus: IDs equal to their keys and below the counter, names pairwise different under folding, and a way of stored parents from every menu to 0 |
| `TableEffects.MenuInputMeaning` | internal/service/service.go:838-872 | Exactly a blank title or name, a path that does not start with `/`, and an unregistered permission are refused, with these fields; otherwise every text is trimmed and goes to its own field |
| `TableEffects.RegisteredMeaning` | internal/service/service.go:594-640 | A registered permission is the trimmed code of a definition of the catalog, or of a built-in one when the catalog is empty |
| `TableEffects.DictionaryEffects` | internal/store/memory/store.go:516-547 | Creating and updating: the code in use or an unknown ID, or the given fields under the ID and nothing else changed |
| `TableEffects.SettingEffects` | internal/store/memory/store.go:574-604 | The same for settings |
| `TableEffects.DeletionEffect` | internal/store/memory/store.go:549-615 | A stored row is gone and nothing else changed |
| `MemoryStore.Store.constructor` | internal/store/memory/store.go:38-53 | A new store is empty, valid and counts from 1 |
| `MemoryStore.Store.Seed` | internal/store/memory/store.go:61-164 | Seeding a new store gives exactly the seed tables, all four of them |
| `MemoryStore.Store.FindUserByUsername` | internal/store/memory/store.go:166-176 | Some user with that name under folding, or not found when there is none |
| `MemoryStore.Store.GetUser` | internal/store/memory/store.go:178-187 | The stored user that has the ID; not found exactly when no stored user has it |
| `MemoryStore.Store.ListUsers` | internal/store/memory/store.go:189-213 | The page of the users that pass the filter, in order of their IDs, whatever order the map gave them in; the panic of a wrapped offset included |
| `UserListing.FoundExactly` | internal/store/memory/store.go:189-213 | The list the page is cut from holds exactly the stored users with the trimmed status, unless it is blank, in whose name, nickname and e-mail the trimmed keyword occurs in lower case, unless it is blank; by increasing ID |
| `MemoryStore.Store.UserTaken` | internal/store/memory/store.go:261-277 | True exactly when another stored user conflicts |
| `MemoryStore.Store.CreateUser` | internal/store/memory/store.go:215-228 | New table and result are those of `Accounts.CreateUser` |
| `MemoryStore.Store.UpdateUser` | internal/store/memory/store.go:230-259 | New table and result are those of `Accounts.UpdateUser`; role IDs and password only replaced when given |
| `MemoryStore.Store.UpdateUserStatus` | internal/store/memory/store.go:279-291 | Of a stored user exactly the status becomes the given one; not found otherwise, and nothing else changes |
| `MemoryStore.Store.DeleteUser` | internal/store/memory/store.go:293-302 | New table and result are those of `Accounts.DeleteUser` |
| `MemoryStore.Store.ListRoles` | internal/store/memory/store.go:319-331 | All roles in order of their IDs |
| `MemoryStore.Store.CreateRole` | internal/store/memory/store.go:344-357 | New table and result are those of `Accounts.CreateRole` |
| `MemoryStore.Store.UpdateRole` | internal/store/memory/store.go:359-380 | New table and result are those of `Accounts.UpdateRole` |
| `MemoryStore.Store.DeleteRole` | internal/store/memory/store.go:382-398 | New table and result are those of `Accounts.DeleteRole`: refused while a user holds the role |
| `MemoryStore.Store.ListMenus` | internal/store/memory/store.go:400-412 | The forest built from all stored menus, each once, in order of their sort values: every node has the fields of the stored menu with its ID, and siblings at every level stand by sort value and ID |
| `MemoryStore.Store.MenuHasAncestor` | internal/store/memory/store.go:742-757 | The parent walk terminates on every valid store, the measure being the height of the menu, and is true exactly for proper ancestors |
| `MemoryStore.Store.CreateMenu` | internal/store/memory/store.go:425-438 | New table and result are those of `MenuStore.Create` |
| `MemoryStore.Store.UpdateMenu` | internal/store/memory/store.go:440-471 | New table and result are those of `MenuStore.Update`, with the errors in its order |
| `MemoryStore.Store.DeleteMenu` | internal/store/memory/store.go:473-487 | New table and result are those of `MenuStore.Delete` |
| `MemoryStore.Store.GetDictionaryByCode` | internal/store/memory/store.go:503-514 | The dictionary with that code under folding |
| `MemoryStore.Store.CreateDictionary` | internal/store/memory/store.go:516-527 | New table and result are those of `KeyedTables.CreateKeyed` |
| `MemoryStore.Store.UpdateDictionary` | internal/store/memory/store.go:529-547 | New table and result are those of `KeyedTables.UpdateKeyed` |
| `MemoryStore.Store.CreateSetting` | internal/store/memory/store.go:574-585 | New table and result are those of `KeyedTables.CreateKeyed` |
| `MemoryStore.Store.UpdateSetting` | internal/store/memory/store.go:587-604 | New table and result are those of `KeyedTables.UpdateKeyed` |
| `MemoryStore.Store.RoleCodeTaken` | internal/store/memory/store.go:344-375 | True exactly when another role has the code under folding |
| `MemoryStore.Store.MenuNameExists` | internal/store/memory/store.go:733-740 | True exactly when another menu has the name under folding |
| `MemoryStore.Store.DictionaryCodeExists` | internal/store/memory/store.go:759-766 | True exactly when another dictionary has the code under folding |
| `MemoryStore.Store.SettingKeyExists` | internal/store/memory/store.go:768-775 | True exactly when another setting has the key under folding |
| `MemoryStore.Store.DeleteDictionary` | internal/store/memory/store.go:549-558 | New table and result are those of `KeyedTables.DeleteKeyed` |
| `MemoryStore.Store.DeleteSetting` | internal/store/memory/store.go:606-615 | New table and result are those of `KeyedTables.DeleteKeyed` |
| `SeedData.AccountsSound` | internal/store/memory/store.go:61-119 | The seeded accounts are sound and have an active administrator |
| `SeedData.MenusValid` | internal/store/memory/store.go:120-141 | The seeded menus are a forest with unique names |
| `SeedData.SeededMenusStayAForest` | internal/store/memory/store.go:61-164 | From a seeded store, after every run of menu calls parents are stored and nobody is his own ancestor |
| `Paging.NormalizePage` | internal/repository/repository.go:22-33 | Pages below 1 become 1; sizes below 1 become 20, sizes above 100 become 100; everything else is kept |
| `Paging.PaginateExactly` | internal/store/memory/store.go:781-791 | `paginate` returns the page that is meant exactly when the offset fits an `int` or wraps to beyond the list, and panics exactly when it wraps below 0 |
| `Paging.HugePagePanics` | internal/store/memory/store.go:781-791 | A page number that normalization lets through and that panics |
| `Paging.PagesAreAPrefix` | internal/store/memory/store.go:781-791 | The first `k` pages in a row are the first `k * size` items |
| `Paging.PagesAreTheList` | internal/store/memory/store.go:781-791 | All pages in a row are the list |
| `Paging.CollectedIsSelected` | internal/store/memory/store.go:189-213 | Whatever order a map hands its rows out in, sorting those that pass the filter gives the same list |
| `Paging.WrapMeaning` | internal/store/memory/store.go:781-791 | The wrapped offset is the one number of 64 bits that differs from the exact one by a multiple of 2^64 |
| `Services.HasOtherActiveAdministrator` | internal/service/service.go:745-766 | The page loop terminates, stays in range, and answers exactly whether another active user holds the role |
| `Services.FindAdminRole` | internal/service/service.go:736-743 | The first role coded admin |
| `Services.ValidateRoleIDs` | internal/service/service.go:684-712 | The IDs without repeats in order, or an error exactly when one is 0 or not stored |
| `Services.UserService.RemovesLastActiveAdministrator` | internal/service/service.go:714-734 | True exactly when the user is an active administrator, would not be one afterwards, and nobody else is one |
| `Services.UserService.Create` | internal/service/service.go:269-310 | State and result are those of the model step, all error cases included |
| `Services.UserService.Update` | internal/service/service.go:312-362 | State and result are those of the model step, all error cases included |
| `Services.UserService.SetStatus` | internal/service/service.go:364-385 | State and result are those of the model step; on success exactly the status of that user is the trimmed input |
| `Services.UserService.Delete` | internal/service/service.go:387-400 | State and result are those of the model step |
| `Services.AuthService.UpdateProfile` | internal/service/service.go:151-173 | State and result are those of the model step: roles and status are not the user's to change |
| `Services.AuthService.ChangePassword` | internal/service/service.go:175-215 | State and result are those of the model step, with the current password verified against the stored hash |
| `SystemServices.SystemService.NormalizeRoleInput` | internal/service/service.go:642-671 | The trimmed role with cleaned permissions, or an error exactly for a blank name or code or a permission unknown to the catalog; an empty catalog stands for the built-in permissions |
| `SystemServices.SystemService.CreateRole` | internal/service/service.go:450-456 | State and result are those of the model step |
| `SystemServices.SystemService.UpdateRole` | internal/service/service.go:458-464 | State and result are those of the model step |
| `SystemServices.SystemService.DeleteRole` | internal/service/service.go:466-468 | State and result are those of the model step |
| `SystemServices.SystemService.CreateMenu` | internal/service/service.go:474-480 | State and result are those of the store for the checked menu |
| `SystemServices.SystemService.UpdateMenu` | internal/service/service.go:482-498 | Though the service's cycle check depends on the order in which the menus were listed, a checked menu is accepted exactly when the store accepts it; for some possible listing, state and result, errors included, are those of the check on that listing followed by the store's update |
| `SystemServices.SystemService.DeleteMenu` | internal/service/service.go:500-502 | State and result are those of the store |
| `SystemServices.RefusedByBoth` | internal/service/service.go:482-498 | A re-parenting the service refuses is one the store refuses, also for menus that are not stored |
| `LastAdministrator.AdminRoleMeaning` | internal/service/service.go:736-743 | In a valid table the role found is the one role coded admin, and none is found exactly when there is none |
| `LastAdministrator.GuardedWriteKeepsAdmin` | internal/service/service.go:714-734 | A write of one user that passes the guard leaves an active administrator |
| `LastAdministrator.StepKeepsSound` | internal/service/service.go:151-400 | Every service call keeps role references duplicate-free and stored, and statuses one of two |
| `LastAdministrator.StepKeepsAdmin` | internal/service/service.go:151-400 | Every service call that does not take the code from the admin role keeps an active administrator |
| `LastAdministrator.ChangeRoleExactly` | internal/service/service.go:458-464 | A role update that is carried out keeps an active administrator if and only if it keeps the code of the admin role |
| `ServiceEffects.CreateEffect` | internal/service/service.go:269-310 | The error by its cause, in order: blank name or weak password, unknown status, a role ID that is 0 or not stored, a name, e-mail or telephone number of somebody else; or one new user under the next ID with the trimmed input, role IDs once each in order, `active` for a blank status, the hash, and nothing else changed |
| `ServiceEffects.UpdateRefuses` | internal/service/service.go:312-327 | Bad input is refused before the user is looked for, which is an error of its own |
| `ServiceEffects.UpdateEffect` | internal/service/service.go:312-362 | For a stored user: the only administrator resigning, a weak new password, a key of somebody else; or exactly this user has the trimmed input, and the new hash if and only if a password was given |
| `ServiceEffects.SetStatusEffect` | internal/service/service.go:364-385 | Unknown status, unknown user, the only administrator; or exactly the status of exactly this user is the trimmed input |
| `ServiceEffects.DeleteEffect` | internal/service/service.go:387-400 | Unknown user, the only administrator; or exactly this user is gone |
| `ServiceEffects.UpdateProfileEffect` | internal/service/service.go:151-173 | Unknown or disabled user, e-mail or telephone number of somebody else; or exactly the four profile fields are the trimmed input |
| `ServiceEffects.ChangePasswordEffect` | internal/service/service.go:175-215 | Missing or weak passwords, unknown or disabled user, wrong password; or exactly the hash is new. A conflict is impossible on a valid store |
| `ServiceEffects.CreateRoleEffect` | internal/service/service.go:450-456 | Exactly a blank name, a blank code and an unknown permission are refused, then a code in use; or one new role under the next ID with the trimmed input and the cleaned list |
| `ServiceEffects.UpdateRoleEffect` | internal/service/service.go:458-464 | The same for the role with the ID, which is not found when it is not stored |
| `ServiceEffects.DeleteRoleEffect` | internal/service/service.go:466-468 | Gone and nothing else changed, unless it is not stored or some user holds it |
| `ServiceEffects.GuardMeaning` | internal/service/service.go:714-734 | The guard refuses a write exactly when the user is the only active holder of a role whose trimmed code folds to `admin`, and would not be one afterwards |
| `ServiceEffects.NothingShared` | internal/store/memory/store.go:261-277 | What valid means for keys: nobody has a login name, a nonblank e-mail address or a nonblank telephone number of somebody else, and no two role codes fold to the same |
| `ServiceEffects.SoundMeaning` | internal/service/service.go:684-712 | What sound means: users name stored roles only, each once, and are active or disabled; IDs are the keys and below the counter |
| `SystemServices.HasAdminUser` | internal/bootstrap/admin.go:152-171 | The page loop terminates and answers exactly whether any user, active or not, holds the role |
| `SystemServices.CreateInitialAdmin` | internal/bootstrap/admin.go:35-85 | State and result are those of the model step; the stored hash accepts the given password |
| `SystemServices.ResetAdminPassword` | internal/bootstrap/admin.go:87-141 | State and result are those of the model step; the new hash accepts the new password |
| `Bootstrap.CreateInitialAdminEstablishes` | internal/bootstrap/admin.go:35-85 | Success leaves a sound state with an active administrator |
| `Bootstrap.CreateInitialAdminOnce` | internal/bootstrap/admin.go:35-85 | While there is an active administrator the call fails and changes nothing |
| `Bootstrap.ResetExactly` | internal/bootstrap/admin.go:87-141 | A reset succeeds if and only if the password is acceptable and the name belongs to a holder of the role coded admin |
| `Bootstrap.ResetStoresHash` | internal/bootstrap/admin.go:113-127 | After a successful reset the user of that name is stored with the new hash |
| `Bootstrap.ResetKeepsRolesAndStatus` | internal/bootstrap/admin.go:87-141 | A reset changes nobody but the named user, and nobody's roles or status; the set of users and all roles stay |
| `BootstrapEffects.CreateInitialAdminEffect` | internal/bootstrap/admin.go:35-85 | Weak password, no role coded admin, some holder of it, a key of somebody else; or one new active user with the given name (`admin` for a blank one), the trimmed fields, the admin role alone and the hash |
| `BootstrapEffects.ResetAdminPasswordEffect` | internal/bootstrap/admin.go:87-141 | Weak password, no role coded admin, nobody with that login name who holds it; or exactly that user has the new hash, the given name and trimmed texts, with roles and status as before |
| `AdministratorRuns.EveryRunKeepsSound` | internal/service/service.go:269-362 | Every run of service calls and bootstrap commands keeps role references duplicate-free and stored |
| `AdministratorRuns.EveryRunKeepsAnAdministrator` | internal/service/service.go:151-400 | Once there is an active administrator, every run of service calls and bootstrap commands in which no role update takes the code from the admin role keeps one |
| `AdministratorRuns.SeededRunsKeepAnAdministrator` | internal/store/memory/store.go:61-164 | From a seeded store, every such run stays sound and keeps an active administrator |
| `AdministratorRuns.RunsAfterInitialAdmin` | internal/bootstrap/admin.go:35-85 | From any sound state, so does every such run after a successful `CreateInitialAdmin` |
| `MigrationFiles.Files` | internal/migration/migration.go:138-157 | The names of exactly the files that end in the suffix (for `.sql`, in neither `.up.sql` nor `.down.sql`); each of two names is a proper beginning of the later one, or has the lower character where they first differ |
| `MigrationFiles.ReadFilesAreFileNames` | internal/migration/migration.go:138-157 | What is read are names of migration files, each once |
| `MigrationFiles.VersionInjective` | internal/migration/migration.go:159-170 | Different files of one or several namespaces are recorded under different versions |
| `MigrationFiles.VersionMeaning` | internal/migration/migration.go:159-170 | `stem.up.sql` is recorded as `stem`, below the trimmed namespace and a slash unless that is blank |
| `MigrationProtocol.DirectoriesAreValid` | internal/migration/migration.go:138-170 | Files as `migrationFiles` reads them from directories with different trimmed namespaces have versions that identify them, which is what the protocol assumes |
| `MigrationProtocol.EveryRunIsSafe` | internal/migration/migration.go:34-83 | For any number of concurrent runners, with stale checks, failures and restarts at any step: the committed scripts of each directory are the first files of its sorted list, each once and in order, and the version table is exactly theirs |
| `MigrationProtocol.EveryRunInOrderOnce` | internal/migration/migration.go:34-83 | In every run, read off the log: no script is committed twice, none before all earlier ones of its directory, and the table holds exactly the versions of the committed ones |
| `MigrationProtocol.DoneMeansComplete` | internal/migration/migration.go:34-83 | A runner that returned without error leaves its whole list recorded |
| `MigrationProtocol.CompleteIsStable` | internal/migration/migration.go:34-83 | Once a directory is complete, no step of any of its runners changes the database, whatever other directories lack |
| `MigrationProtocol.SoloCompletes` | internal/migration/migration.go:34-83 | A runner alone and without failures carries on from any file to the end |
| `MigrationProtocol.RestartCompletes` | internal/migration/migration.go:34-83 | From every safe state a runner can be started again and complete, whatever failed before |
| `MigrationProtocol.AskFindsExactly` | internal/migration/migration.go:126-136 | A runner is told that a file is missing if and only if nobody has committed it |
| `MigrationProtocol.OvertakenExactly` | internal/migration/migration.go:44-82 | A runner without failures of its own fails at a file it was told is missing if and only if somebody else commits that file after it asked and before it inserts the version |
| `MigrationRefinement.RunUpIsASoloRun` | internal/migration/migration.go:34-83 | The loop is a runner of the protocol: wherever a run of it ends, some run of one runner's steps gives the same version rows, the same scripts in the same order, and success or failure alike |
| `MigrationRefinement.PendingScriptsArePending` | internal/migration/migration.go:44-82 | The scripts of that run are the pending files |
| `MigrationRunner.Database.RunUp` | internal/migration/migration.go:34-83 | One runner over a table of rows. Its scripts are migration files of the directory in the order of their names, character by character; none was recorded before, all are recorded under their versions afterwards and nothing else; they are the pending files before the first fault, and the one at it when that commit took effect unheard; success means that every file of the directory is recorded |
| `MigrationRunner.Database.RunFiles` | internal/migration/migration.go:44-82 | The loop of `RunUp`, with the file at which it stops and why |
| `MigrationRunner.PrefixContinues` | internal/migration/migration.go:34-83 | From a recorded prefix a stopped run leaves a longer or equal prefix, so the next run continues where it stopped |
| `MigrationRunner.NothingPendingAfter` | internal/migration/migration.go:34-83 | After a complete run the next one executes nothing |
| `Pbkdf2.Pbkdf2SHA256` | internal/security/password.go:76-105 | For every pseudorandom function with 32-byte results, every positive iteration count and key length up to (2^32 - 1) * 32: exactly the derived key of section 5.2 of RFC 8018 |
| `Pbkdf2.Block` | internal/security/password.go:80-101 | One block: the in-place XOR of the chain is F of the standard |
| `Pbkdf2.XorInto` | internal/security/password.go:96-99 | In place, octet by octet |
| `Pbkdf2.DerivedKeyUnique` | internal/security/password.go:76-105 | The standard determines the key: block count and truncation leave no choice |
| `PasswordMeaning.KeyOctets` | internal/security/password.go:76-105 | Octet by octet: octet `n` is the exclusive or of the octets `n mod 32` of a chain of hashes that starts with the salt and block number `n / 32 + 1`, and there are as many octets as asked for |
| `Pbkdf2.IntRoundTrip` | internal/security/password.go:82-88 | Read as base 256, most significant first, the four octets are the block number, for every number below 2^32 |
| `Password.HashPassword` | internal/security/password.go:33-50 | Nothing for the empty password, otherwise the encoding of a derived key of 32 bytes |
| `Password.VerifyPassword` | internal/security/password.go:52-74 | True exactly for an encoding with four parts, the algorithm's name, a positive iteration count, decodable salt and key, and a derived key equal to the decoded one |
| `Password.HashAcceptsItsPassword` | internal/security/password.go:33-74 | Round trip: a stored hash accepts the password it was made from |
| `Password.HashAcceptsSameKey` | internal/security/password.go:33-74 | And another password exactly when it derives the same key |
| `PasswordMeaning.HashWritten` | internal/security/password.go:43-49 | The stored string is `pbkdf2_sha256`, `120000`, the salt and a key of 32 octets with 120000 iterations, with `$` between them |
| `PasswordMeaning.AcceptsExactly` | internal/security/password.go:52-74 | A string is accepted if and only if it is `pbkdf2_sha256`, a positive count, a salt and a key with `$` between them and nowhere in them, and the key is derived with that count and salt |
| `PasswordMeaning.AtoiReads` | internal/security/password.go:58-61 | A count is read in decimal, with or without a sign, as far as 64 bits hold it |
| `PasswordMeaning.AtoiRefuses` | internal/security/password.go:58-61 | Anything but digits after an optional sign is refused |
| `Metrics.PassesAreOneEscape` | internal/httpapi/metrics.go:143-147 | The three replacement passes are one escape of each character by itself |
| `Metrics.LabelReadsBack` | internal/httpapi/metrics.go:143-147 | An independent reader, which rejects raw newlines and bare quotes, gives back every string |
| `Metrics.LabelInPieces` | internal/httpapi/metrics.go:143-147 | Backslash and quote get a backslash before them, a newline becomes a backslash and `n`, every other character stays, wherever it stands |
| `ResponseContract.CheckIsConformance` | web/src/api/client.js:276-333 | The recursion of the object checker visits exactly the parts that schema references lead to; `ResponseMeaning.ObjectRefusedExactly` says what it finds wrong in them |
| `ResponseContract.ResponseCheckIsConformance` | web/src/api/client.js:256-274 | The same for whole responses: objects as above, arrays item by item, schemas of other kinds always; `ResponseMeaning.ResponseRefusedExactly` in terms of the data |
| `ResponseMeaning.ObjectRefusedExactly` | web/src/api/client.js:276-352 | The checker throws if and only if some value that object fields and array items lead to is no object, lacks a required field, or has a present and not null field of the wrong type (a number that is not finite included), outside its enumeration, no array where items are declared, or with a scalar item of the wrong type |
| `ResponseMeaning.ResponseRefusedExactly` | web/src/api/client.js:256-274 | The same for responses: also for no array under an array schema, for an item that leads to a fault, and for an unknown schema; never under schemas of other kinds |
| `ResponseContract.MenuAccepted` | web/src/api/types.js:373 | The JSON form of any menu of the server, nested to any depth, is accepted under the schema `Menu`, whose children are `Menu` again |
| `ResponseContract.ListedMenusAccepted` | web/src/api/types.js:374 | So is every forest the listing can return |
| `ResponseMeaning.EncodedMenuReadsBack` | web/src/api/types.js:373 | Reading the fields of the JSON form by their names gives the menu back, children included |
| `ModuleRegistry.ValidateModules` | internal/module/registry.go:154-318 | No error exactly when the list satisfies the declarative rules: shapes, namespaces, uniqueness, ownership, parents, components |
| `PlainRules.AcceptedExactly` | internal/module/registry.go:154-318 | The rules written out: names of lower-case letters, digits and underscores; permission codes that start with the module's name and a colon and name it as their owner; the seven methods; paths at or below `/api/v1/name` and `/name`; names, summaries, components, drivers and directories that are not blank; public routes without a permission; permissions and parents of the module itself; eight kinds of texts in which no two parts of any modules agree; and one component per path |
| `PlainRules.ModuleMeaning` | internal/module/registry.go:160-305 | One module is fine exactly when it is plain in this sense |
| `ModuleValidator.FirstPass` | internal/module/registry.go:155-197 | Succeeds exactly when names, permission codes and menu names are fine and pairwise different; the maps hold each key's owner |
| `ModuleValidator.SecondPass` | internal/module/registry.go:199-305 | Succeeds exactly when all routes, menus and migration sets are fine against the maps and their six kinds of keys pairwise different |
| `ModuleValidator.CollectKey` | internal/module/registry.go:421-431 | `requireUnique` key by key: as long as it succeeds the map is the old one with all keys so far and their owner, and when it fails the keys of the list clash with the map or among themselves |
| `ModuleRegistry.CheckComponents` | internal/module/registry.go:306-316 | The look-up by path succeeds exactly when each menu matches the component filed under its path |
| `ModuleRegistry.ComponentsByMap` | internal/module/registry.go:306-316 | Which is comparing every menu with every route on the same path |
| `ModuleRegistry.PassesAreRules` | internal/module/registry.go:199-305 | What the second pass looks up in the maps is what the rules say about ownership |
| `ModuleRegistry.Registry.Register` | internal/module/registry.go:96-101 | Files a named module under its name, replacing an earlier one |
| `ModuleRegistry.Registry.List` | internal/module/registry.go:103-112 | Every registered module and no other; of two names the earlier is a proper beginning of the later, or has the lower character where they first differ |
| `ModuleRegistry.Registry.Permissions` | internal/module/registry.go:114-120 | The permissions of the listed modules in a row |
| `ModuleRegistry.NewRegistry` | internal/module/registry.go:81-87 | The modules filed by name |
| `ModuleRegistry.ListIsSortedPermutation` | internal/module/registry.go:89-112 | For accepted modules the listing is the input as a multiset |
| `ModuleRegistry.NewPermissionCatalog` | internal/service/service.go:594-617 | The first definition of every nonblank code, or the built-in list when there is none |
| `ModuleRegistry.CatalogDropsNothing` | internal/service/service.go:594-617 | From accepted modules a nonempty catalog keeps every permission, in order |
| `ModuleRegistry.PathsOfModulesDisjoint` | internal/module/registry.go:320-322 | In accepted modules a path of one module lies in no other module's namespace |
| `ModuleRules.NamespacesDisjoint` | internal/module/registry.go:320-322 | Namespaces of different valid names under one root share no path |
| `ModuleRules.ValidNameTrimmed` | internal/module/registry.go:77-79 | A valid name is its own trimmed form and not blank |
| `TextMeaning.TrimSpaceMeaning` | internal/service/service.go:270-276 | What `strings.TrimSpace` is taken to do: cut the white space at both ends and nothing else |
| `TextMeaning.EqualFoldMeaning` | internal/store/memory/store.go:261-277 | What `strings.EqualFold` is taken to do on ASCII: letters may differ in case, nothing else |
| `TextMeaning.ContainsMeaning` | internal/store/memory/store.go:200-204 | What `strings.Contains` is taken to do: the part stands somewhere in the string |

## Left out

- HTTP handlers, routing, middleware, request decoding, static files, configuration, the command line, scaffolding and the Vue application: no logic of the kind proved here.
- Concurrent service calls: each is one step here, because its checks and its write are separate store calls and nothing holds between them in the code. Store calls are atomic in the code, and what is proved about runs of store calls holds for every interleaving.
- Time stamps, `TouchLastLogin`, audit log entries, dashboard counts and the public form of a user: no property depends on them.
- The 64-bit width of ID counters: they are natural numbers here.
- Aliasing of slices between the store and its callers: the store clones what it takes and returns, so rows are values here.
- `Seed` on a store that is not new: it skips the conflict checks and names parent 2.
- JSON validity of setting values and the input checks of dictionaries and settings; the two tables themselves are modelled.
- The SQL adapter except for its ancestor query, the guards of `UpdateMenu`, the order of `ListMenus` and the tree builder, which is the memory store's.
- MenuStore.AdaptersAgreeExactly: is about the guards; the write itself and errors of the database are not modelled. `lower` is taken to be the lower-casing of `Text.ToLower`.
- MenuTree.BuildMenuTree: puts siblings equal in sort value and ID in one order, while the code's sort may leave them in any; with distinct IDs, as in every store, there are none.
- MenuStore.WalkAgreesWithQuery: is about the relation, not the loop, which need not end on a table with a cycle; on every valid store it does (`MemoryStore.Store.MenuHasAncestor`).
- Services.HasOtherActiveAdministrator: assumes that the number of users plus one page fits an `int`, which memory bounds anyway. The same holds for every method that requires `Fits`.
- Bootstrap.CreateInitialAdminEstablishes: does not cover a failure of the audit entry after the user has been written.
- ModuleValidator.SecondPass: does not model error texts, so the checks of one route or menu are one predicate, evaluated before its keys are recorded; the outcome is the same.
- ModuleRegistry.ValidateModules: says whether there is an error, not which of several comes first.
- MigrationProtocol.EveryRunIsSafe: a script is an opaque effect inside an atomic transaction; a script that commits by itself, `RunSeeds` and the creation of the version table are not modelled.
- ResponseContract.CheckIsConformance: does not model messages, nor property names inherited from JavaScript's own prototypes; the checks of request bodies in the same file are not modelled.
- Password.VerifyPassword: comparison in constant time is equality here; SHA-256, HMAC, base64 and UTF-8 are parameters.
- Login, tokens and password policy texts: library calls and messages.
- Request counting and route matching of the metrics: only the escaping of labels is modelled.
