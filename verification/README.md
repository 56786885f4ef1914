# yqhp-server, verified core

A Dafny model of the parts of yqhp-server that do more than store and fetch rows, with proofs about them.
`dafny verify dfyconfig.toml` checks everything.

| file | what it models |
|---|---|
| `PermissionMatcher.dfy` | the wildcard matcher behind permission checks, and its callers |
| `ListMove.dfy` | the one list operation "take an item out, put it next to another", the (sort, id) listing order, and the in-place slice splice |
| `ConfigDefinitions.dfy` | sparse reordering of configuration definitions: halving, rebalancing, int32 arithmetic, whole runs |
| `ConfigValues.dfy` | definitions, environments and configuration rows under all their operations: what each environment shows, which rows exist |
| `ConfigTable.dfy` | the operations on these three tables |
| `Environments.dfy` | dense reordering of a project's environments |
| `CategoryForest.dfy`, `CategoryOrder.dfy`, `CategoryTable.dfy` | workflow categories: the folder forest, sibling order by shifting, whole runs, the project tree |
| `TreeBuild.dfy` | building a tree from a flat list with arbitrary parent ids |
| `Menus.dfy` | a user's menus: grants, completion by enabled ancestors, the tree |
| `SessionProtocol.dfy` | submit, wait, stop and cleanup calls interleaving around a one-slot channel |
| `StepAccounting.dfy` | step counters and results while callbacks finish concurrently |
| `StepFilter.dfy` | running only selected steps of a workflow |
| `LinkTables.dfy` | user-role and role-resource links: soft delete plus revive-or-insert |

## Conventions

- A table is a finite map from primary key to row. Each database statement is one atomic step that succeeds;
  `ORDER BY sort, id` is `ListMove.OrderBySort`, queries without an order return rows in an arbitrary order.
- A nullable parent id or sort is read as 0, as the code reads it.
- Keys assigned by the database and fresh uuids are parameters. Clocks, timers and contexts are actions that
  may happen at any point of a run.
- Go strings are byte sequences; a `char` stands for one byte.
- Sort values of configuration definitions go through `Int32`, which wraps like Go's int32. Category sort
  values are unbounded integers; `CategoryOrder.RunFromEmpty` bounds them by the number of steps taken.
- In `SessionProtocol` and `StepAccounting` a run is any sequence of actions; an action that is not possible
  in a state is skipped, so every interleaving is covered.

## What was found

Where the code does not do what its own documentation says on all inputs, the exact condition is proved.

- The matcher tests for a literal match before it tests for a star, so a pattern star facing a target star is
  only that star. It means what its comment says for every pattern exactly on targets without `*`, and on
  every target exactly for the pattern `*` and patterns without `*` (`ExactOnTarget`, `ExactOnPattern`). What
  it accepts on all inputs is given in full (`MatchWildcard`).
- The category move check asks for strict descendants only. An accepted move keeps the forest exactly when
  the new parent is not the node itself and belongs to the node's project (`MoveForest`); a folder dropped
  into itself is accepted and becomes its own parent (`IntoItselfBreaks`). Create keeps the forest exactly
  when it names the root or a live folder of the project (`CreateForest`). On any table the recursive check
  comes back exactly if the climb meets the root, a row that is not live or the node asked about, no further up
  than there are rows (`ClimbEndsExact`); after a folder was dropped into itself, moving any other node into it never returns
  (`IntoItselfThenDiverges`).
- A configuration definition ends up where it was asked to go, for any int32 sort values, exactly if a move
  behind the last definition leaves room for the gap in int32 and, when there is no room at the new place, the
  group is small enough to be numbered in int32 (`MoveOrder`, `MoveLastExact`). A distance too large for int32
  wraps, counts as no room, and so costs a renumbering and nothing else.
- A definition moved before itself stays where it is, unless such a renumbering would not fit. Moved after
  itself it stays exactly if there is room in front of the next one or, when it is the last one, if the value
  written still sorts behind the one before (`SelfMoveExact`); `WrappedSelfMoves` gives two groups with a wide
  gap in which it does not. An environment moved before itself always stays and moved after itself never does
  (`SelfMove`); the call panics on the slice bounds when it is the last one (`EnvTable.UpdateSort`).
- Configuration rows are meant to be created for every new environment, but the function that does so,
  `SyncConfigDefinitionsToEnv`, has no caller. All rows are there throughout a run exactly if no environment was
  created in a project that had definitions (`CoverRun`). The listing of an environment is right all the same
  (`LastWriteShown`), while a workflow run skips the definitions without a row (`ConfigStore.Merge`).
- The step filter emits an unselected step twice when both its loop and its children hold selected steps. It
  keeps every selected subtree once and in order, and is idempotent, exactly when there is no such step
  (`FilterExact`). A step kept for one side carries the other side along unfiltered (`PrunedExact`). Steps
  inside condition branches are not searched, so a selected step there can be lost (`BranchStepsLost`). Without
  clashes all selected steps, those in branches included, survive exactly if no dropped step holds one
  (`BranchesExact`).
- A response that arrives after its wait has timed out stays in the channel and goes to the next wait
  (`LateAnswerReachesNextWait` is such a run). A wait gets a response accepted before it was armed exactly if
  the channel held a response when it was armed and no other wait was answered in between
  (`StaleAnswerExact`). Conservation, order and at-most-once delivery hold all the same.
- A send can meet a channel that cleanup has closed (`SendCanMeetClosedChannel` is such a run). A call about
  to send panics exactly if a cleanup came after its own lookup of the session (`PanicsExact`).
- A stop is forgotten when a wait begins after it: the status becomes Waiting, then Running, and the execution is
  not reported as stopped. With no status set in between, it stays Stopped exactly if no wait begins to wait
  (`StopLastsExact`; `StopForgotten` is such a run). The context stays done (`CancelledExact`).

## Model

| member | source | states |
|---|---|---|
| PermissionMatcher.MatchWildcard | admin/internal/auth/permission.go:145-176 | for every pattern and target the loop returns true exactly on the language `Accepts`, in at most \|t\|*(\|p\|+1)+\|p\| iterations |
| PermissionMatcher.NeverAhead | admin/internal/auth/permission.go:158-165 | a match starting the segment after the remembered star later than the current alignment never reaches the segment's end earlier, so older stars can be forgotten |
| PermissionMatcher.NewStar | admin/internal/auth/permission.go:158-161 | when a new star is met, the answer depends on the new star alone |
| PermissionMatcher.AcceptsOnlyMatches | admin/internal/auth/permission.go:141-176 | whatever is accepted matches by the documented meaning, for all inputs |
| PermissionMatcher.ExactOnTarget | admin/internal/auth/permission.go:141-176 | for a given target, acceptance is the documented meaning for all patterns if and only if the target has no star |
| PermissionMatcher.ExactOnPattern | admin/internal/auth/permission.go:146-176 | for a given pattern, acceptance is the documented meaning for all targets if and only if the pattern is `*` or has no star |
| PermissionMatcher.TrailingStarExact | admin/internal/auth/permission.go:146-176 | a pattern that ends in its only star accepts exactly the targets that begin with the part before it, except that a star may follow there only as the last byte |
| PermissionMatcher.AcceptsItself | admin/internal/auth/permission.go:146-176 | every code is accepted by itself, stars and all |
| PermissionMatcher.HasPermission | admin/internal/auth/permission.go:90-102 | true only if some held permission describes the code; for a code without star, exactly then |
| PermissionMatcher.HasAnyPermission | admin/internal/auth/permission.go:125-139 | true only if some held permission describes some asked code; when no asked code has a star, exactly then |
| ListMove.PlaceIsPlaced | gulu/internal/logic/env_logic.go:234-251 | the abstract move puts the item immediately next to its target, keeps the order of all others and the set of items |
| ListMove.PlacedIsPlace | gulu/internal/logic/env_logic.go:234-251 | no other list does that |
| ListMove.ListingUnique | gulu/internal/logic/config_definition_logic.go:326-331 | sort values and ids determine the listing |
| ListMove.SplicedIsPlace | gulu/internal/logic/config_definition_logic.go:449-466 | removing, shifting the target index and inserting is the abstract move for distinct items |
| ListMove.SplicedKeepsAll | gulu/internal/logic/env_logic.go:234-251 | the splice loses and doubles nothing, whatever the indices |
| ListMove.SpliceInPlace | gulu/internal/logic/env_logic.go:234-251 | the two appends on one backing array compute the splice; they panic exactly for the last item placed after itself |
| ConfigDefinitions.MoveOrder | gulu/internal/logic/config_definition_logic.go:345-411 | for all int32 sort values: the listing after a reorder, on whatever path (front, between, last, in place, rebalance), is the abstract move of the listing before, if and only if a move behind the last one fits int32 and, where the new place is crowded, so does the numbering of the group |
| ConfigDefinitions.RebalanceExact | gulu/internal/logic/config_definition_logic.go:345-411 | the group is renumbered if and only if there is no room at the new place: the first sort value is at most 1, or the neighbours are at most 1, or more than int32 holds, apart |
| ConfigDefinitions.MoveLastExact | gulu/internal/logic/config_definition_logic.go:379-382 | a move behind the last definition has that effect exactly while the new sort value fits int32 |
| ConfigDefinitions.SelfMoveExact | gulu/internal/logic/config_definition_logic.go:349-403 | for all int32 sort values: placed before itself a definition stays put unless the place is crowded and the group too large to number; placed after itself it stays if and only if there is room before the next one or, being last, it still sorts last at the value written |
| ConfigDefinitions.WrappedSelfMoves | gulu/internal/logic/config_definition_logic.go:361-403 | two groups whose definition is moved after itself and does not stay: a sum and a distance that wrap |
| ConfigDefinitions.RunFromEmpty | gulu/internal/logic/config_definition_logic.go:64-67 | after m create, reorder and delete steps from an empty group, m up to 2147483, all sort values are distinct and in 1..1000*m, and no int32 computation of the next step overflows |
| ConfigDefinitions.ReorderBounded | gulu/internal/logic/config_definition_logic.go:345-411 | one reorder keeps distinctness and raises the bound by at most one gap |
| ConfigDefinitions.HalvingLasts | gulu/internal/logic/config_definition_logic.go:361-399 | with all distances at least 2^k, k up to 9, any k reorders not in front of the first item never renumber and change one row each |
| ConfigDefinitions.NineAfterRebalance | gulu/internal/logic/config_definition_logic.go:468-477 | right after a rebalance nine such reorders are single-row updates without another rebalance |
| ConfigDefinitions.FrontGaps | gulu/internal/logic/config_definition_logic.go:349-360 | with the first sort value above n gaps, n moves to the front change one row each and put it exactly one gap in front |
| ConfigDefinitions.FrontHalves | gulu/internal/logic/config_definition_logic.go:349-360 | with the first sort value between 2^k and a gap, k moves to the front change one row each, and the i-th leaves at least 2^(k-i) on either side of the new first value |
| ConfigDefinitions.NineToFront | gulu/internal/logic/config_definition_logic.go:349-480 | so after a rebalance nine moves to the front are single-row updates that halve the room |
| ConfigTable.ReorderInTable | gulu/internal/logic/config_definition_logic.go:298-411 | in the table, for all int32 sort values: exactly when the group is listed as the abstract move says; other groups keep their sort values, and unless the new place is crowded only the dragged row differs |
| ConfigTable.ReorderRefines | gulu/internal/logic/config_definition_logic.go:300-411 | what the table operation does to a group is the group's own step, so the run theorems apply |
| ConfigTable.ConfigStore.UpdateSort | gulu/internal/logic/config_definition_logic.go:300-411 | the new table is the old one with exactly the sort values of the group step; only sort values of live definitions of the project and type differ; which errors are reported, and that they change nothing |
| ConfigTable.ConfigStore.RebalanceSort | gulu/internal/logic/config_definition_logic.go:422-480 | writes 1000, 2000, ... in the order of the splice and nothing else |
| ConfigTable.ConfigStore.GetNextSort | gulu/internal/logic/config_definition_logic.go:483-499 | a full gap above every sort value of the group while that fits int32, and a gap above one of them, or the gap itself for an empty group |
| ConfigTable.ConfigStore.Create | gulu/internal/logic/config_definition_logic.go:46-124 | appends one definition at the next sort value and a default row for every live environment of the project |
| ConfigTable.ConfigStore.Delete | gulu/internal/logic/config_definition_logic.go:219-249 | marks the one live definition with the code deleted and removes its rows from all environments; otherwise changes nothing |
| ConfigTable.ConfigStore.UpdateConfigValue | gulu/internal/logic/config_logic.go:165-221 | sets the value in the row, or adds the row, for a live environment and a live code; otherwise changes nothing |
| ConfigTable.ConfigStore.CopyEnv | gulu/internal/logic/env_logic.go:266-330 | adds an environment like the source with a copy of each of its rows |
| ConfigTable.ConfigStore.GetConfigsByEnv | gulu/internal/logic/config_logic.go:34-133 | exactly the definitions of the project that are not deleted, of one type or all, by sort and id, each with the row's value or the default |
| ConfigTable.ConfigStore.Merge | gulu/internal/workflow/config_merger.go:68-141 | exactly the definitions that have a row in the environment, with its value; all of them when the tables are covered |
| ConfigValues.InvHolds | gulu/internal/logic/config_definition_logic.go:219-249 | after every run of all operations, reorders included, codes are unique and each configuration row belongs to an environment and to a live definition of its type |
| ConfigValues.RowHasOwners | gulu/internal/logic/config_definition_logic.go:46-124 | on the fields: each configuration row has an environment, whose project it carries, and a live definition of its code and type |
| ConfigValues.RowChanges | gulu/internal/logic/config_definition_logic.go:219-249 | rows appear only for environments that are not deleted, through a definition of the project, a copy or a set value; they vanish only with their definition; no value changes but the one set |
| ConfigValues.EnvExact | gulu/internal/logic/env_logic.go:59-134 | after every run an environment is there exactly if it was created or copied, deleted exactly if it was removed, and in the project it was made for, a copy in that of its source |
| ConfigValues.DefinitionExact | gulu/internal/logic/config_definition_logic.go:46-249 | after every run a definition is there exactly if it was created, with the project, type and code it was created with, and deleted exactly if its code was removed |
| ConfigValues.LastWriteShown | gulu/internal/logic/config_logic.go:34-133 | after every run each environment shows for each live definition the last value set there, followed back through copies of environments, or the default if there was none |
| ConfigValues.NeverWritten | gulu/internal/logic/config_logic.go:165-221 | nothing is written for a code before its definition exists |
| ConfigValues.CoverStep | gulu/internal/logic/config_definition_logic.go:251-282 | with every row in place, an operation leaves one out if and only if it creates an environment in a project that has definitions |
| ConfigValues.CoverRun | gulu/internal/logic/config_definition_logic.go:251-282 | every row is in place after each step of a run if and only if no step was of that kind |
| ConfigValues.BareExample | gulu/internal/logic/env_logic.go:59-94 | a definition and then an environment: its row is missing |
| Environments.EnvTable.UpdateSort | gulu/internal/logic/env_logic.go:193-263 | the listing becomes the abstract move; exactly the environments of the project that are not deleted are numbered 0..n-1 in it and no other row changes; errors, and the panic, change nothing |
| Environments.OutcomeOnRows | gulu/internal/logic/env_logic.go:193-251 | each outcome has its condition on the row fields; the panic is for the last environment of its project, by sort value and id, placed after itself |
| Environments.NumberedRows | gulu/internal/logic/env_logic.go:215-260 | the old order is by sort value and id over the rows of the project that are not deleted; these rows, and they alone, get their position in the new one |
| Environments.RenumberedListing | gulu/internal/logic/env_logic.go:253-260 | numbering the list makes it the listing, with sort value = position |
| Environments.SelfMove | gulu/internal/logic/env_logic.go:234-251 | an environment placed next to itself keeps the order exactly for "before" |
| CategoryForest.DescendantExact | gulu/internal/logic/category_workflow_logic.go:318-337 | on any table on which isDescendant comes back, it answers exactly the strict-ancestor question |
| CategoryForest.ClimbEndsExact | gulu/internal/logic/category_workflow_logic.go:318-337 | on any table isDescendant comes back if and only if the climb meets 0, a row that is not live or the ancestor asked for within as many steps as the table has rows |
| CategoryForest.ForestDecides | gulu/internal/logic/category_workflow_logic.go:213-264 | on a forest every move is decided |
| CategoryForest.MoveOutcome | gulu/internal/logic/category_workflow_logic.go:213-264 | on any table, each answer of a move has its condition on the row fields and the parent links; accepted exactly if both rows are there, one going inside goes into a folder, the new place does not lie below the node, and the climb from it ends |
| CategoryForest.MoveForest | gulu/internal/logic/category_workflow_logic.go:213-316 | an accepted move keeps every parent chain in live folders of one project up to 0 if and only if the new parent is not the node itself and not in another project |
| CategoryForest.IntoItselfBreaks | gulu/internal/logic/category_workflow_logic.go:234-243 | a folder moved inside itself is always accepted and always breaks the forest |
| CategoryForest.IntoItselfThenDiverges | gulu/internal/logic/category_workflow_logic.go:318-337 | after that, moving any other live node into the folder never returns |
| CategoryForest.CreateForest | gulu/internal/logic/category_workflow_logic.go:62-103 | create keeps the forest if and only if the parent is 0 or a live folder of the project |
| CategoryForest.DeleteForest | gulu/internal/logic/category_workflow_logic.go:129-153 | an accepted delete always keeps the forest |
| CategoryOrder.MoveNextToOrder | gulu/internal/logic/category_workflow_logic.go:255-315 | before and after: the node lands immediately next to its target and all other siblings keep their order |
| CategoryOrder.MoveNextToExact | gulu/internal/logic/category_workflow_logic.go:255-315 | the node ends up next to its target exactly when both are in the same project |
| CategoryOrder.MoveNextToItself | gulu/internal/logic/category_workflow_logic.go:255-315 | before or after itself: the order stays |
| CategoryOrder.MoveInsideOrder | gulu/internal/logic/category_workflow_logic.go:234-253 | inside: the node becomes the last child, the others keep their order |
| CategoryOrder.MoveOtherOrder | gulu/internal/logic/category_workflow_logic.go:273-315 | every other folder only loses the node |
| CategoryOrder.MoveSorts | gulu/internal/logic/category_workflow_logic.go:244-315 | a move keeps live siblings' sort values pairwise distinct and raises the bound by at most one |
| CategoryOrder.CreateSorts | gulu/internal/logic/category_workflow_logic.go:73-83 | so does create |
| CategoryOrder.CreateOrder | gulu/internal/logic/category_workflow_logic.go:73-83 | a new category becomes the last of its siblings; every other folder stays as it is |
| CategoryOrder.DeleteOrder | gulu/internal/logic/category_workflow_logic.go:129-153 | a deleted category leaves its folder and the others keep their order; every other folder stays as it is |
| CategoryOrder.StepForest | gulu/internal/logic/category_workflow_logic.go:62-316 | any step from a forest leads to a forest exactly when it is sound |
| CategoryOrder.RunForest | gulu/internal/logic/category_workflow_logic.go:62-316 | a run from a forest goes through forests only, if and only if each of its steps is sound |
| CategoryOrder.RunSorts | gulu/internal/logic/category_workflow_logic.go:62-316 | every run, sound or not, keeps sibling sort values distinct and raises the bound by at most one per step |
| CategoryOrder.RunFromEmpty | gulu/internal/logic/category_workflow_logic.go:62-316 | after every run of create, move and delete from the empty table, live siblings have distinct sort values below the number of steps; the table is a forest after every step if and only if every step was sound |
| CategoryTable.CategoryRows.Create | gulu/internal/logic/category_workflow_logic.go:62-103 | on any table: refused exactly for a workflow entry without workflow; otherwise adds one row with the fields asked for, above all its siblings |
| CategoryTable.CategoryRows.Delete | gulu/internal/logic/category_workflow_logic.go:129-153 | on any table: refused exactly for a missing row and a folder with children that are not deleted; otherwise marks that one row; a forest stays one |
| CategoryTable.CategoryRows.Move | gulu/internal/logic/category_workflow_logic.go:213-316 | on any table on which the check comes back: the verdict and the table after the move; from a forest it is a forest exactly when the step is sound |
| CategoryTable.CategoryRows.ShiftSiblings | gulu/internal/logic/category_workflow_logic.go:273-306 | the loop raises exactly the siblings at or above the new sort value by one |
| CategoryTable.CategoryRows.GetTree | gulu/internal/logic/category_workflow_logic.go:164-210 | on any table the tree holds a live category of the project once if its chain inside the project reaches 0 and otherwise not at all, at every level in sibling order; on a forest that is every one |
| TreeBuild.BuildTree | admin/internal/types/convert.go:187-200 | the recursive loop from root 0 terminates for any parent ids and builds `Build` |
| TreeBuild.DeeperShrinks | admin/internal/types/convert.go:162-175 | the termination argument: each level leaves fewer rows with longer chains |
| TreeBuild.TreeHoldsRooted | admin/internal/types/convert.go:162-200 | each row occurs once if its parent chain inside the list reaches 0, and otherwise not at all |
| TreeBuild.TreeInListOrder | admin/internal/types/convert.go:187-200 | at every level the nodes are exactly the rows of that parent in list order |
| Menus.CompleteParents | admin/internal/logic/resource_logic.go:215-252 | the result is the input followed by exactly the enabled ancestors, no id twice; the loop takes at most a+2 and at most 2a+1 rounds for a added rows, with cyclic links too |
| Menus.NeededIsLeast | admin/internal/logic/resource_logic.go:354-391 | that set is the least one holding the input and closed under enabled parents |
| Menus.Round | admin/internal/logic/resource_logic.go:230-249 | a round either adds a row or leaves only ids that no query will return |
| Menus.FirstNeeds | admin/internal/logic/resource_logic.go:216-227 | the worklist starts with exactly the missing parents |
| Menus.TreeShows | admin/internal/logic/resource_logic.go:210-211 | the tree of the completed list shows a resource once if it is granted or above a granted one and its enabled chain reaches 0, else not at all |
| Menus.GrantedOnRows | admin/internal/logic/resource_logic.go:181-208 | on the fields: granted is a resource of type 1 or 2, status 1, not deleted and in scope, given by a live link of a role that a live link in scope gives the user |
| Menus.CompletedOnRows | admin/internal/logic/resource_logic.go:354-391 | on the fields: every completed row has status 1, is not deleted and in scope, and comes with its parent if that is so too |
| Menus.GetUserMenus | admin/internal/logic/resource_logic.go:181-212 | the same from the user's role and resource links, for all applications or one; at every level granted menus come first, by sort value, and completed parents after them |
| SessionProtocol.Conservation | gulu/internal/executor/session_manager.go:107-181 | in every interleaving the accepted responses are, in order, the delivered ones followed by at most one still buffered |
| SessionProtocol.AcceptedOnce | gulu/internal/executor/session_manager.go:123-146 | no submit call is accepted twice |
| SessionProtocol.DeliveredOnce | gulu/internal/executor/session_manager.go:312-343 | no response is delivered twice and no wait returns two |
| SessionProtocol.DeliveredWasAccepted | gulu/internal/executor/session_manager.go:123-146 | the i-th delivered response is the i-th accepted one, for every delivery |
| SessionProtocol.AcceptanceSawWaiting | gulu/internal/executor/session_manager.go:123-146 | each acceptance comes after the same call found the session and then saw status waiting, and carries that call's response |
| SessionProtocol.SubmitOutcome | gulu/internal/executor/session_manager.go:123-146 | told from the history: a lookup passes exactly if no cleanup came before, the check exactly if the status is Waiting, and the send is accepted exactly if no cleanup came before and everything accepted so far is delivered |
| SessionProtocol.ReceiveOutcome | gulu/internal/executor/session_manager.go:332-342 | a selecting wait can receive exactly if something accepted is undelivered or a cleanup has come; it gets the oldest undelivered response |
| SessionProtocol.LeavingWasReleased | gulu/internal/executor/session_manager.go:312-343 | a wait ends only by a delivery, a cleanup, the context or, if it was begun with one, its timeout |
| SessionProtocol.InvHolds | gulu/internal/executor/session_manager.go:107-120 | the channel is closed exactly once the session has left the map, so never twice |
| SessionProtocol.OldAnswer | gulu/internal/executor/session_manager.go:123-146 | in every run and at any point of it, a later delivery brings a response accepted before that point if and only if the channel held it then |
| SessionProtocol.StaleAnswerExact | gulu/internal/executor/session_manager.go:312-343 | a wait is answered by a response accepted before it was armed if and only if the channel held a response when it was armed and this was the next delivery; it is that response |
| SessionProtocol.LateAnswerReachesNextWait | gulu/internal/executor/session_manager.go:312-343 | a run from the start in which a wait times out after a submit call has seen it waiting, the send follows, and the next wait receives that response |
| SessionProtocol.NextWaitReceives | gulu/internal/executor/session_manager.go:312-343 | whatever response is left in the channel, a new wait that arms and selects gets it |
| SessionProtocol.PanicsExact | gulu/internal/executor/session_manager.go:107-146 | in every run a call about to send meets a closed channel if and only if a cleanup came after its own lookup of the session; nothing is accepted then |
| SessionProtocol.SendingFoundSession | gulu/internal/executor/session_manager.go:123-146 | every call about to send has such a lookup behind it |
| SessionProtocol.ClosedByCleanup | gulu/internal/executor/session_manager.go:107-120 | the channel is closed after exactly the runs that contain a cleanup |
| SessionProtocol.SendCanMeetClosedChannel | gulu/internal/executor/session_manager.go:107-146 | a run from the start that closes the channel between the check and the send of one call |
| SessionProtocol.StopFoundSession | gulu/internal/executor/session_manager.go:165-181 | a stop that takes effect found the session before any cleanup |
| SessionProtocol.StopOutcome | gulu/internal/executor/session_manager.go:165-181 | a stop is applied exactly if no cleanup came before it looked for the session |
| SessionProtocol.StopLastsExact | gulu/internal/executor/session_manager.go:165-181 | after the last stop, with no status set since, the status is Stopped if and only if no wait began to wait since |
| SessionProtocol.StopForgotten | gulu/internal/executor/session_manager.go:312-323 | a run from the start that is stopped and counts as running again after one more wait |
| SessionProtocol.SetStatusLasts | gulu/internal/executor/session_manager.go:297-302 | a status set directly lasts until it is set again, a stop or the beginning of a wait |
| SessionProtocol.ArmedIsWaiting | gulu/internal/executor/session_manager.go:312-316 | once a wait has begun to wait the status is Waiting until a wait ends, the status is set or a stop takes effect |
| SessionProtocol.WaitingEnds | gulu/internal/executor/session_manager.go:318-324 | the end of a wait turns Waiting into Running and leaves every other status; this lasts until the next wait |
| SessionProtocol.CancelledExact | gulu/internal/executor/session_manager.go:165-199 | after every run the context is done if and only if it ended by itself or a stop took effect after the cancel function was set |
| SessionProtocol.StopReleases | gulu/internal/executor/session_manager.go:332-335 | after such a stop every wait that selects can leave through the context |
| StepAccounting.Accounts | gulu/internal/executor/sse_callback.go:40-60 | in every interleaving total = success + failed; with no callback in progress success is the number of successful steps, failed that of failed and timed-out ones, and skipped steps are in the results alone |
| StepAccounting.ResultsInOrder | gulu/internal/executor/sse_callback.go:49-60 | the results stand in the order in which they were appended, each marked a success exactly if its status is success |
| StepAccounting.PendingBegan | gulu/internal/executor/sse_callback.go:40-60 | a callback counts and records with the status its step completed with |
| StepAccounting.StepInv | gulu/internal/executor/session_manager.go:260-288 | each lock section keeps counters and results apart by exactly the callbacks between their two sections |
| StepFilter.FilterSteps | gulu/internal/handler/stream_execution.go:1008-1055 | the recursive loop computes `Filter`; an empty selection returns the steps unchanged |
| StepFilter.FilterExact | gulu/internal/handler/stream_execution.go:1008-1055 | subtrees selected through loops and children are kept once, whole and in order, and filtering is idempotent, if and only if no unselected step has selected steps in both loop and children |
| StepFilter.SpotsExact | gulu/internal/handler/stream_execution.go:1018-1052 | every selected step stays inside the same containers, with their ids and branches, and on the same side (loop or children) of each, in order, if and only if no step clashes |
| StepFilter.ClashDoubles | gulu/internal/handler/stream_execution.go:1018-1052 | a clashing step comes out twice, first with its children and then with its loop as they were; if the sides do not clash within, each copy holds all its selected steps in place |
| StepFilter.KeptAreCopies | gulu/internal/handler/stream_execution.go:1018-1052 | what is kept at any level is a selected step itself or a copy with the id, the branches and one of loop and children unchanged |
| StepFilter.PrunedExact | gulu/internal/handler/stream_execution.go:1018-1052 | no container is kept without a selected step below it, if and only if every side carried along unfiltered is already so |
| StepFilter.OneSidedIsFine | gulu/internal/handler/stream_execution.go:1018-1052 | workflows whose steps never have both loop steps and children meet both conditions |
| StepFilter.BranchesExact | gulu/internal/handler/stream_execution.go:1008-1055 | when no step clashes, filtering keeps all selected steps, those inside condition branches included, if and only if no dropped step holds one |
| StepFilter.BranchStepsLost | gulu/internal/handler/stream_execution.go:1018-1052 | a condition step whose only selected steps are in its branches is dropped with all of them |
| StepFilter.BranchStepLostExample | gulu/internal/handler/stream_execution.go:1018-1052 | one selected step inside a branch, lost |
| LinkTables.UserRoleTable.UpdateUserRoles | admin/internal/logic/user_logic.go:392-420 | the user's live pairs become exactly the requested ones, repeats included and whether affected rows are counted as matched or as changed; other users' rows are unchanged and none disappears |
| LinkTables.UserRoleTable.Revive | admin/internal/logic/user_logic.go:403-417 | afterwards exactly this link is live, under both ways of counting affected rows |
| LinkTables.GetUserRoleIds | admin/internal/logic/user_logic.go:506-527 | each application once, with exactly the user's live roles there, each once |
| LinkTables.SaveWhatWasRead | admin/internal/logic/user_logic.go:392-527 | saving what was read back leaves the live links as they were |
| LinkTables.GetUserRoles | admin/internal/logic/user_logic.go:256-270 | exactly the live roles held under some application, each once |
| LinkTables.BatchGetUserRoles | admin/internal/logic/user_logic.go:274-325 | every asked user gets exactly the roles of the one-user query, each as often as there are live links from the user to it; nobody else has an entry |
| LinkTables.RoleResourceTable.UpdateRoleResources | admin/internal/logic/role_logic.go:85-110 | the role's live resources become exactly the requested set; other roles' rows are unchanged |
| LinkTables.RoleResourceTable.GetRoleResourceIds | admin/internal/logic/role_logic.go:183-195 | exactly the role's live resources, each once |

## Left out

- Fetching a user's permission codes and role codes: plain joins; `PermissionMatcher.HasPermission` takes the list of codes as a parameter.
- Menus.GetUserMenus: equal sort values are listed by id, where the query leaves their order open; looking the application up by its code is not modelled.
- LinkTables.BatchGetUserRoles: the order of one user's roles is that of an unordered query and is not described.
- Setting a sort value directly (UpdateConfigDefinition, the batch UpdateSort of categories): it can break every order invariant by design, so runs exclude it; `ConfigDefinitions.MoveOrder` and `SelfMoveExact` hold for whatever values it leaves.
- Configuration values: json, encryption and masking of sensitive variables, and the name, description, extra and status of a definition are not modelled; all definitions count as enabled.
- ConfigTable.ConfigStore.Merge: returns the merged values by code; what each type of configuration makes of its value is not modelled.
- Renaming, searching and looking up categories: single reads and writes of unrelated fields.
- CategoryTable.CategoryRows.Move: a call whose descendant check recurses for ever has no result to describe; `CategoryForest.ClimbEndsExact` says which calls those are. A position other than before, after and inside is refused by request validation and is not modelled.
- SessionProtocol.Conservation: one session object; a later session under the same id is a new object with its own channel. Submitted responses are not nil, as the one caller guarantees. Setting the status and the cancel function are single steps that are always possible; that they look the session up first is not modelled. Variables, the event writer and its close are not modelled.
- StepFilter.FilterExact: speaks of steps reached through loops and children, as the filter does; those inside branches are the subject of `StepFilter.BranchesExact`.
- StepFilter.FilterSteps: a missing loop and a loop without steps are not told apart, since the filter treats them alike; the fields copied along unchanged are not modelled.
- Department trees: BuildDeptTree has the same code as BuildResourceTree, so `TreeBuild` stands for both.
- Failing statements in the middle of an update that runs without a transaction: every statement is taken to succeed.
- HTTP handlers, routing, login, OAuth, tokens, caching, scheduling, the workflow engine and its clients: plumbing, or dependent on code outside the repository.
