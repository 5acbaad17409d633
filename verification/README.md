# Organization hierarchy of the ikube-gin-starter portal, in Dafny

The portal keeps organizations (and menus) in flat tables. Each row has a
self-referencing `ParentId`, where 0 marks a root, and a `Level`. This project
models the code that turns those rows into trees and assigns levels:

- **Level assignment on create.** `Organization.BeforeCreate` and `Menu.BeforeCreate`
  give a root level 1 and any other row its parent's level plus one. They
  refuse levels beyond 5. The increment is Go `int` arithmetic, so it is
  modelled with 64-bit wrap-around (`Records.Inc64`). Both hooks write
  `Level` before the bound check, so a refused record still carries the
  computed level (`Levels.Created`). Module `Levels`.
- **Forest from one full scan.** This is the unfiltered branch of
  `OrganizationLogic.List` and `Organization.GetAllDescendants`. The Go code
  links pointers into the scanned slice. The model keeps the same graph as an
  arena (`Forests.Forest`): the roots and every children list are positions in
  the scanned rows. `Forests.IsForestOf` states what the forest must be.
  `Forests.BuildForest` is the two Go loops with the invariants that prove it.
  The arena also holds rows that no returned root leads to. `Forests.Reachable`
  says what a caller can actually reach from the returned roots. Module `Forests`.
- **Ancestor walk.** `buildParentHierarchy` walks parent ids up to a root
  (module `Chains`). `Get` and the filtered branch of `List` map it over the
  name-prefix matches (module `OrganizationLogic`). The walk has no depth guard.
  Its precondition `Chains.Stops` says no cycle is reachable from the start
  row. `OrganizationLogic.ConsistentLevelsGiveChains` shows that a table with
  consistent levels meets it.
- **`ActionType`.** `String`, `Scan` and `Value` of the permission action type
  (module `Actions`).

Storage is a parameter. The organization table is a `map<nat, Organization>`
keyed by primary key, and a primary-key lookup is a map lookup. Each scan
query (`Find`) is a `Result<seq<Organization>>`: an `Err` is a failed query,
and an `Ok` holds the rows in scan order. Which rows a `name LIKE prefix%`
query matches is up to the database, so the matches are an input.

The code has no structural checks on update or delete. `Put`, `Create` and
`Delete` in apps/portal/logic/organization.go pass straight to the ORM, with no
root-reparent ban and no has-children check. The model therefore states no
such rules. The filtered listing does not merge shared ancestors: it returns
one chain per match, and `OrganizationLogic.SharedRootNotMerged` shows two
chains with the same root.

## Model

| member | source | states |
|---|---|---|
| Records.Inc64 | apps/portal/model/user.go:69 | `level + 1` on a Go `int` is two's-complement addition: the mathematical successor reduced into the signed 64-bit range. |
| Levels.OrganizationBeforeCreate | apps/portal/model/user.go:54-82 | A root gets level 1 and is accepted. A missing parent aborts with that lookup error and leaves the record untouched. Otherwise the level is the parent's plus one, and the hook accepts exactly when that is at most OrganizationLevel (5). Only the level field is written, and success implies level <= 5. |
| Levels.LevelFollowsParent | apps/portal/model/user.go:63-75 | Without overflow, a created row's level is exactly its parent's level + 1. Creation succeeds iff that is <= 5. |
| Levels.CallerLevelIgnored | apps/portal/model/user.go:69-78 | The level the caller supplied never matters. Two records that differ only in level get the same verdict, and on success they come out identical. |
| Levels.LevelWrapPassesBound | apps/portal/model/user.go:69-75 | In Go `int` arithmetic, a parent whose level is the largest `int` yields a child at the smallest `int`, and the bound check accepts it. |
| Levels.HookKeepsLevelsConsistent | apps/portal/model/user.go:56-79 | Take a table where every row sits at level 1..limit, roots at 1 and every other row one below an existing parent. Storing a row the hook accepted, under an unused key, keeps it that way. |
| Levels.CreateKeepsLevelsConsistent | apps/portal/model/user.go:54-82 | Creating an organization preserves level consistency of the organization table. |
| Levels.MenuBeforeCreate | apps/portal/model/app.go:66-94 | The menu hook as written: the same level rule with MenuLevel (5), but the parent's level is read from the ORGANIZATION table. A missing parent aborts creation. |
| Levels.MenuBeforeCreateIntended | apps/portal/model/app.go:66-94 | The menu hook reading the parent from the menu table. Root gets 1, a missing parent aborts, otherwise parent + 1, and success implies level <= 5. |
| Levels.MenuParentLookedUpInWrongTable | apps/portal/model/app.go:71-81 | Take a child of a level-1 menu whose id is not an organization id. The written hook fails with record-not-found, while the intended one assigns level 2. |
| Levels.IntendedMenuCreateKeepsLevelsConsistent | apps/portal/model/app.go:66-94 | The intended menu hook preserves level consistency of the menu table. |
| Forests.BuildForest | apps/portal/logic/organization.go:74-92 | After indexing rows by id, the roots are exactly the rows with parent id 0, in scan order. Each row's children are exactly the rows naming it as parent, in scan order, each once. Rows whose parent was not scanned are skipped. |
| Forests.ListAll | apps/portal/logic/organization.go:68-93 | The unfiltered List returns a failed scan unchanged. Otherwise it returns the forest of the scanned rows as above. |
| Forests.AttachedExactlyOnce | apps/portal/logic/organization.go:80-92 | Counted over the arena's lists, a root appears once, among the roots. A non-root whose parent was scanned appears exactly once, in that parent's children. A non-root whose parent is absent appears nowhere. |
| Forests.ReachableIffWalkReachesRoot | apps/portal/logic/organization.go:79-93 | A scanned row is reachable from the returned roots exactly when its parent walk among the scanned rows ends at a root. A row with an unscanned ancestor, or on or below a cycle of parent ids, is unreachable. |
| Forests.RootPathUnique | apps/portal/logic/organization.go:80-92 | Two root paths that end at the same row are equal, so no row is reached along two branches. |
| Forests.OrphanSubtreeDropped | apps/portal/logic/organization.go:79-93 | Rows 1 (root), 2 (parent 9, not scanned), 3 (parent 2): the arena lists row 3 once, under row 2, yet neither row 2 nor row 3 is reachable from the single returned root. |
| OrganizationLogic.ConsistentScanIsFullyReachable | apps/portal/logic/organization.go:68-93 | When the scanned rows are level-consistent, every row is reachable from the returned roots, along exactly one root path. |
| Forests.ForestIsDetermined | apps/portal/logic/organization.go:67-93 | The forest is a function of the scan: listing the same rows twice gives the same forest. |
| Forests.GetAllDescendants | apps/portal/model/user.go:84-114 | A failed scan is returned unchanged. With org.ID 0 the result is exactly the root rows, in scan order. Otherwise it is exactly the rows whose parent is org.ID (its direct children), in scan order. The forest is the full attach of the scan. Every parent and org.ID must be present, because the code dereferences them unchecked. |
| Chains.AncestorPath | apps/portal/logic/organization.go:47-66 | The walk visits a chain from a root (parent id 0) down to the start row, each row the stored parent of the next. If a parent id has no row, the walk fails with that non-zero id. |
| Chains.RootChainIsFound | apps/portal/logic/organization.go:47-66 | Any chain from a root down to a row is what the walk returns, and such a chain makes the walk finite. |
| Chains.WalkFailsIffNoRootChain | apps/portal/logic/organization.go:52-55 | The walk fails exactly when no chain joins the row to a root. |
| Chains.BuildParentHierarchy | apps/portal/logic/organization.go:47-66 | A root comes back as itself with no lookup. Otherwise the result is a root (parent id 0) that fails exactly when the walk fails, with the same error. Its children are the later rows of the path, in order, with the start row last. They all hang directly under the root (see Findings). |
| Chains.NestedChain | apps/portal/logic/organization.go:57-65 | Corrected walk: it fails exactly when the walk fails. On success it is a path tree (each row has at most one child) whose rows, top down, are the root-to-row chain. |
| Chains.AsWrittenFlattensDeepChains | apps/portal/logic/organization.go:57-65 | On chains of one or two rows the written and corrected walks agree. From three rows on, the written walk gives the root `length - 1` children, which is no path. |
| Chains.ThreeLevelChainComesBackFlat | apps/portal/logic/organization.go:57-65 | Rows 1 (root), 2 (parent 1), 3 (parent 2): walking from 3 gives 1 with children [2, 3], whereas the corrected walk gives 1 > 2 > 3. |
| OrganizationLogic.Get | apps/portal/logic/organization.go:27-44 | A failed query is returned unchanged. Otherwise there is exactly one chain per match, in match order, each rooted at a parent-id-0 row. If a walk fails, the call fails with the first failing match's error and returns no partial list. |
| OrganizationLogic.List | apps/portal/logic/organization.go:67-114 | An empty search gives the forest of the whole table. A non-empty search gives exactly Get's result on the matches. A failed query is returned unchanged. |
| OrganizationLogic.SharedRootNotMerged | apps/portal/logic/organization.go:101-112 | Two matches under one root come back as two chains, each with its own copy of the root. |
| OrganizationLogic.ConsistentLevelsGiveChains | apps/portal/logic/organization.go:47-66 | In a level-consistent table, the walk from any stored row is finite and reaches a root. The chain has as many rows as the row's level. |
| OrganizationLogic.ConsistentTableIsWalkable | apps/portal/logic/organization.go:34-43 | In a level-consistent table, Get on rows of the table meets its precondition and succeeds. |
| Actions.String | apps/portal/model/upms.go:65-74 | The result is "read" iff the action is 0, "write" iff it is 1, and "unknown" for every other value. |
| Actions.Value | apps/portal/model/upms.go:87-89 | Value is the action as a `uint` and never errs. Scanning that value restores the action, whatever the receiver held. |
| Actions.Scan | apps/portal/model/upms.go:77-84 | Scan succeeds iff handed a `uint`, and then the receiver takes that number, so the value accepted is exactly what Value writes for the result. Anything else gives an error and leaves the receiver unchanged. |

## Findings

| source | as written | input that shows it | evidently intended | confidence | as-written member | corrected member |
|---|---|---|---|---|---|---|
| apps/portal/logic/organization.go:57-65 | The recursive call returns the ROOT of the chain, and the current row is appended to that root's `Children`. Every row below the root ends up as a direct child of the root. | Rows 1 (root), 2 (parent 1), 3 (parent 2); Get matching row 3 | Each row appended to its parent's `Children`, giving one nested path, as the comment at line 63 says | medium, not executed | Chains.BuildParentHierarchy (shown by Chains.ThreeLevelChainComesBackFlat) | Chains.NestedChain |
| apps/portal/model/app.go:71-81 | The parent of a new menu is read into an `Organization` from the organization table | Menu 7 at level 1 with no organization 7; create a menu with parent 7 | Look the parent up in the menu table | high, not executed | Levels.MenuBeforeCreate (shown by Levels.MenuParentLookedUpInWrongTable) | Levels.MenuBeforeCreateIntended |

`Get` and `List` keep the walk as written, so they return flattened chains
like the code does. `Chains.NestedChain` is the walk the comments describe,
and `Chains.AsWrittenFlattensDeepChains` marks where the two differ.

## Left out

- `Put`, `Create` and `Delete` (apps/portal/logic/organization.go:116-139) are bare ORM calls with no logic of their own.
- Go pointer aliasing: before Go 1.22, `&org` on the range variable in `Get` and in the filtered `List` points at one variable shared by all iterations. The model treats every match as its own value, which is the Go 1.22 semantics.
- Forests.GetAllDescendants: the code panics on a nil dereference when a parent or `org.ID` is missing. The model makes both a precondition instead of modelling the panic.
- Forests.BuildForest, Forests.ListAll, Forests.GetAllDescendants: these assume unique ids, since ids are primary keys. The behaviour of the Go map index on duplicate ids (last row wins) is not modelled.
- Forests.AttachedExactlyOnce: it counts occurrences over the arena's lists, including the lists of rows that no returned root reaches. The unfiltered List hands back only the roots, so the whole subtree below a row with an unscanned parent, or below a cycle of parent ids, is dropped. `Forests.ReachableIffWalkReachesRoot` states what is reachable.
- Levels.LevelWrapPassesBound: it is about Go `int` arithmetic only. `Level` is stored in a `type:int` column, which is 32-bit in MySQL, so a parent level at the largest Go `int` cannot come back from storage. Column widths are not modelled.
- Chains.BuildParentHierarchy: the code recurses without bound, and a cycle of parent ids overflows the Go stack. The model requires the walk to be finite instead.
- Storage errors other than "not found" on a primary-key lookup (lost connection and so on) are not modelled: a lookup is a total map lookup.
- SQL `LIKE prefix%` matching belongs to the database. The matches are an input.
- Logging, gin contexts, gorm configuration, binding and validation tags, and the timestamp fields of the common model.
- Menu fields with no structural role (component, redirect, icons, flags) are left out of `Records.Menu`.
- Actions.Value, Actions.Scan: `DbValue` has no floats or times. How `database/sql` converts a Go `uint` on its way to the driver is not modelled.
- The book app, the logger package, command-line start-up, global singletons and the paging helper are outside the hierarchy code.
