# Tab/arrow dataflow editor — a Dafny model

ProjectAristov is a React application for building tables of material components
("tabs") and wiring them together with arrows. Each arrow forwards a chosen subset
of its source tab's rows into its target tab. This project models the bookkeeping
core of that application and proves properties of it.

The core is:

- **The root component** (`App.js`).
  - It holds the stored tabs, arrows and tab positions.
  - It recomputes every tab's incoming rows from the arrows (`updateDependentData`).
  - It applies one arrow's selection to its target tab (`updateBlockDataBasedOnArrows`).
  - It strips an arrow's rows (`removeArrowData`, `deleteArrow`).
  - It performs the graph edits: add, rename, clean and delete a tab; update an arrow or its end point; move a tab; reset.
  - It runs the "calculate" action and the confirmation gate.
- **The tab page** (`TabsPage.js`).
  - Splice-based reordering of tabs.
  - The active tab.
  - Saving a tab's own rows.
  - Synchronising an edited or deleted row into every copy held by tabs and arrows (`updateAllTabs`).
- **The arrow dialog** (`ModalArrow.js`).
  - The candidate rows, de-duplicated by id as a JavaScript `Map` does.
  - Toggling a row in the selection.
  - The select-all flag.
  - Saving and deleting.
- **The table view and the tab dialog** (`TabTable.js`, `ModalTab.js`).
  - Editing a cell, the new-row form, appending and deleting own rows.
  - The display list (incoming rows, then own rows), its content total, the percentage coefficients and the row numbering.
  - Renaming, cleaning and deleting a tab.
- **The canvas** (`DraggableTabs.js`).
  - Dragging an arrow's end or body.
  - Re-attaching a released end to the first tab under it.
  - Adding arrows and tabs.
  - Measured tab sizes.
  - Pulling attached ends along when a tab is dropped.

## How the model is organised

Modules follow the source files.

- `Basics` holds `Option`, `Filter`, decimal text and the integer model of `parseFloat`.
- `Entities` holds the records and the by-id lookups and rewrites shared by the components.
- `Propagation` holds the recompute and the per-arrow update as pure functions.
- `Mutations` holds every graph edit as a pure function on the stored `Graph`, together with the well-formedness predicate `Valid`:
  - tab ids are distinct;
  - position ids are distinct and equal the tab ids;
  - every attached arrow end names a tab.
- `Aggregate` holds the display list and the coefficients.
- `App`, `TabsPage`, `ModalArrow`, `TabTable`, `ModalTab` and `DraggableTabs` model the components.

Each component is a class.

- Its state is fields.
- Each handler is a method with field-granular `modifies` clauses.
- Each method's `ensures` ties the new state to the pure function of the old state.
- Handlers that change the graph also promise that a well-formed graph stays well formed.

Imperative code in the source is imperative here:

- `getIncomingData` (the `forEach` loop with a visited set) is a method with a loop invariant against the pure `IncomingFor`.
- `updateDependentData` loops over the tabs.
- `moveTab` splices an array in place (`ShiftLeft`/`ShiftRight`).
- The arrow dialog fills a `Map` key by key (`BuildUniqueData`).
- `updateConnectedArrows` calls `updateArrow` once per attached arrow.

Modelling conventions:

- **Identifiers**: generated identifiers (`uuidv4`) are method parameters (`freshId`, `nextId`).
- **State updates**: React state updates and their callbacks are strict sequential composition, in the order the handler issues them.
  - A later step reads the updated state where the source waits for it (`await`, or a `setState` callback).
  - A handler that reads `this.props` twice without waiting sees the props as they were when it started. `handleTabDragStop` (DraggableTabs.js:241-244) is such a handler: `updateConnectedArrows` looks the tab up in the positions from before `updateTabPosition`, and `DraggableTabs.DraggableTabs.HandleTabDragStop` passes those old positions on.
- **Absent values**: `null`/`undefined` fields are `Option` values.
- **Coordinates**: coordinates and measured sizes are integers.
- **Numbers**:
  - A cell's number is the value of its leading decimal digits; an absent or empty cell counts as 0.
  - A coefficient is the share rounded half-up to two decimals, or `"NaN"` when the total is 0.
- **Tab geometry**: where an arrow end lands on a tab is computed from the rendered rectangle. It is the parameter `nearest: (TabPosition, Point) -> Point`.

## Where the documented behaviour and the code differ

The model follows the code in each case, and states the code's behaviour as a lemma where that is possible.

- **The full recompute does not tag rows.**
  - `updateDependentData` copies selected rows without an `arrowId` tag (`src/App.js:186-187`).
  - The targeted update tags the rows and appends them at the end (`src/App.js:216-219`).
  - So the targeted result differs from the full one. `Propagation.TargetedDiffersFromFull` shows an instance.
- **Stale incoming rows after `deleteTab`.**
  - `deleteTab` removes the tab, its position and its arrows.
  - It does not remove the rows those arrows had delivered to other tabs.
- **No recompute after `updateArrow` and `updateArrowEnd`.**
  - `setArrows` takes one argument, so the recompute callbacks passed to it are dropped (`src/App.js:60-64, 110, 132`).
  - `updateArrow` and `updateArrowEnd` therefore change only the arrows.
- **`deleteArrow` needs the arrow to exist.**
  - It dereferences the arrow it looked up (`src/App.js:264, 250`).
  - `App.App.DeleteArrow` requires that the arrow exists.
  - The confirmation gate records the same demand in `App.Runnable`.
- **`calculateTab` uses other columns.**
  - It reads `col2` and writes `col3` (`src/App.js:232-235`), not the `content` column the table view sums.
  - The model only claims its structural effect.
- **An update drops the delivering arrow's tag.**
  - `updateAllTabs(row, 'update')` replaces incoming copies with the edited own row, which has no `arrowId`.
  - Removing the delivering arrow later no longer removes the copy. `TabsPage.EditedCopyLosesTag` shows an instance.
- **Editing a row that does not exist.**
  - `handleInputChange` then saves the unchanged rows.
  - It calls `updateAllTabs` with a row whose id is undefined, which matches no row.
  - The model saves and skips the synchronisation, which has the same effect.

## Model

| member | source | states |
|---|---|---|
| Basics.LeadingDigits | src/components/TabTable.js:81 | the prefix `parseFloat` reads is the longest prefix of digits: all digits, and the next character (if any) is not one |
| Basics.ParseNumberOfNatToString | src/components/TabTable.js:81 | parsing the decimal text of a number gives the number back |
| Entities.FindTab | src/App.js:148 | `find` by id: found exactly when some tab has the id; the result is a tab of the list with that id |
| Entities.FindArrowIndex | src/App.js:123 | `findIndex`: the index of the first arrow with the id, or none when no arrow has it |
| Entities.ReplaceById | src/pages/TabsPage.js:93-95 | every row with the id becomes the new row; every other row and the length are unchanged |
| Entities.RemoveById | src/components/TabTable.js:63 | the result is the rows without the id, in their original order (`Filter`); no row with the id remains and every other row keeps its multiplicity |
| Entities.RemoveAfterReplace | src/pages/TabsPage.js:101-105 | the delete branch, which replaces and then filters, equals plain filtering |
| Entities.Tagged | src/App.js:218 | same rows (ids, cells, length), each tagged with the arrow id |
| Entities.Untagged | src/App.js:217 | the result is the rows not tagged with the arrow, in their original order (`Filter`); other rows keep their multiplicity; nothing tagged means nothing removed |
| Entities.RetagSplit | src/App.js:216-219 | after the targeted update, the arrow's rows are exactly its tagged selection and the other rows are the old untagged ones |
| Propagation.Recompute | src/App.js:169-201 | same number and order of tabs; ids, names and own rows kept; each tab's incoming rows are `IncomingFor` its id |
| Propagation.RecomputeSameIds | src/App.js:173-198 | the result depends on the tabs only through their ids |
| Propagation.RecomputeIdempotent | src/App.js:173-198 | recomputing twice equals recomputing once |
| Propagation.RecomputeIgnoresOldIncoming | src/App.js:173-176 | tabs differing only in incoming rows recompute to the same tabs |
| Propagation.RepeatedArrowIgnored | src/App.js:182-183 | arrows whose id already targeted the tab earlier in the list add nothing |
| Propagation.IncomingWithoutRepeats | src/App.js:179-190 | with distinct target ids, a tab's incoming rows are the concatenation, in arrow order, of the selections of arrows into it from existing tabs |
| Propagation.TwoArrowsIntoOneTab | src/App.js:181-188 | two distinct arrows from existing tabs into one tab: its rows are both selections in order, and its length is their sum |
| Propagation.IncomingSound | src/App.js:181-188 | every incoming row is a row of the selection of an arrow into the tab from an existing tab |
| Propagation.UntargetedTabGetsNothing | src/App.js:182 | a tab no arrow targets receives no rows |
| Propagation.IncomingFor | src/App.js:179-192 | a tab never receives more rows than the selections of all arrows into it from existing tabs |
| Propagation.GatherBound | src/App.js:181-190 | the loop skipping repeated arrow ids yields no more rows than the loop without skipping |
| Propagation.ApplyArrowContribution | src/App.js:210-224 | only a tab the non-null `to` names changes; it keeps id, name and own rows; a null `to` changes nothing |
| Propagation.ApplyTargetRows | src/App.js:216-219 | the target's incoming rows are its old rows without the arrow's tag, in order, followed by the selection tagged with the arrow (`Untagged(old) + Tagged(selection)`) |
| Propagation.ApplyIdempotent | src/App.js:210-224 | applying the same arrow twice equals applying it once |
| Propagation.RemoveArrowData | src/App.js:249-260 | only the target tab changes; its incoming rows become `Untagged` of the old ones, so exactly the arrow's tagged rows go and the others stay in their order |
| Propagation.RemoveUndoesApply | src/App.js:249-260 | removing an arrow's rows after applying the arrow equals removing them from the original tabs |
| Propagation.TargetedDiffersFromFull | src/App.js:186-219 | for one arrow into an empty tab, the targeted update yields a tagged row where the full recompute yields an untagged one |
| Mutations.AddTab | src/App.js:82-89 | appends one empty tab named "Вкладка n+1" and one position with the same id at (100 + 50n, 100); arrows unchanged |
| Mutations.AddTabValid | src/App.js:82-89 | adding a tab with a fresh id keeps the graph well formed |
| Mutations.RenameTab | src/App.js:92-95 | only the name of tabs with the id changes; count and order kept |
| Mutations.SetTabData | src/App.js:273-278 | only the own rows of tabs with the id change |
| Mutations.CleanTab | src/App.js:67-72 | same count and order; every tab with the id becomes that tab with no own rows; every other tab is unchanged |
| Mutations.SetTabDataCommutesWithRecompute | src/App.js:195-198 | replacing a tab's own rows commutes with the recompute |
| Mutations.RenameCommutesWithRecompute | src/App.js:92-95 | renaming commutes with the recompute |
| Mutations.DeleteTab | src/App.js:98-105 | tabs, positions and arrows are the old lists filtered, survivors in their original order: tabs and positions without the id, arrows with neither end at it |
| Mutations.DeleteTabTabIds | src/App.js:99 | the tab ids lose exactly the deleted id |
| Mutations.DeleteTabPositionIds | src/App.js:100 | the position ids lose exactly the deleted id |
| Mutations.DeleteTabValid | src/App.js:98-105 | deleting a tab keeps the graph well formed |
| Mutations.UpdateArrow | src/App.js:108-113 | every arrow with the id becomes the new arrow; others unchanged |
| Mutations.UpdateArrowValid | src/App.js:108-113 | replacing arrows by an attached arrow keeps the graph well formed |
| Mutations.UpdateArrowEnd | src/App.js:122-134 | when k is the first index with the id, the result is the list with arrow k's end point set to (x, y) and nothing else changed; an unknown id changes nothing |
| Mutations.UpdateArrowEndValid | src/App.js:122-134 | moving an end point keeps the graph well formed |
| Mutations.UpdateTabPosition | src/App.js:116-119 | positions with the id move to (x, y); ids and other positions kept |
| Mutations.UpdateTabPositionValid | src/App.js:116-119 | moving a tab keeps the graph well formed |
| Mutations.UpdateArrowData | src/App.js:204-207 | arrows are replaced by id, then the new arrow's selection is applied to its target; positions unchanged |
| Mutations.DeleteArrow | src/App.js:263-270 | the arrows are the old ones without the id, in their original order; positions and the tabs' ids, names and own rows unchanged |
| Mutations.DeleteArrowTabs | src/App.js:249-270 | the first such arrow's target gets `Untagged` of its incoming rows, the others in their order; other tabs unchanged |
| Mutations.DeleteArrowValid | src/App.js:263-270 | deleting an arrow keeps the graph well formed |
| Mutations.ResetData | src/App.js:281-291 | every collection is empty, which is well formed |
| Mutations.SetTabDataValid | src/App.js:273-278 | replacing one tab's own rows keeps the graph well formed |
| Aggregate.CellValue | src/components/TabTable.js:81 | a missing or empty cell counts as 0 |
| Aggregate.CellValueOfNumber | src/components/TabTable.js:81 | a cell holding the decimal text of n counts as n |
| Aggregate.Total | src/App.js:232 | the sum is zero exactly when every row's value is zero |
| Aggregate.Percent | src/components/TabTable.js:86 | "NaN" exactly when the total is zero; otherwise a text ending in a point and two digits |
| Aggregate.Fixed2Text | src/components/TabTable.js:86 | `toFixed(2)` on a number of hundredths with two integer digits writes those digits, a point and the two decimals |
| Aggregate.TotalConcat | src/components/TabTable.js:81 | the total of a concatenation is the sum of the totals |
| Aggregate.CellBelowTotal | src/components/TabTable.js:81 | no row's content exceeds the total |
| Aggregate.AllData | src/components/TabTable.js:79 | the display list is as long as incoming plus own rows |
| Aggregate.DisplayRows | src/components/TabTable.js:84-93 | one displayed row per row of the display list |
| Aggregate.DisplayOrder | src/components/TabTable.js:79-93 | incoming rows first, own rows after, numbered position + 1 |
| Aggregate.TotalContentSplit | src/components/ModalTab.js:51-53 | the total is the incoming total plus the own total |
| Aggregate.EveryRowHasCoefficient | src/components/ModalTab.js:56-59 | every displayed row, incoming or own, gets the coefficient of its own content over the total |
| Aggregate.ZeroTotalCoefficients | src/components/TabTable.js:84-87 | a zero total gives the placeholder for every row, never a failure |
| Aggregate.PercentExample | src/components/TabTable.js:86 | contents 10, 20 and 30 give "16.67", "33.33" and "50.00" |
| Aggregate.ReadOnlyBlock | src/components/TabTable.js:116 | the read-only block is the first \|incoming\| displayed rows, numbered 1 upwards |
| Aggregate.OwnRowNumbering | src/components/TabTable.js:130 | own row j is numbered j + 1 + \|incoming\|, as in the display list |
| Aggregate.Labelled | src/App.js:231-236 | one row per own row, keeping id, tag and every cell but `col3`; `col3` is the `Percent` of the row's `col2` over the `col2` total of incoming plus own rows |
| Aggregate.CalculateTab | src/App.js:227-246 | an unknown id changes nothing; the tab count is kept |
| Aggregate.CalculateTabStructure | src/App.js:227-246 | for a known id: ids and names kept; tabs without the id keep their own rows; tabs with the id get `Labelled` of the first such tab (same count as its own rows); every tab's incoming rows are `IncomingFor` its id |
| App.PerformValid | src/App.js:358-364 | every confirmable request keeps the graph well formed |
| App.Perform | src/App.js:358-364 | cleaning empties only the own rows of the tab with the id; deleting a tab is `Mutations.DeleteTab` and deleting an arrow `Mutations.DeleteArrow` (each an order-keeping filter), so neither id remains; reset empties everything |
| App.ArrowForModal | src/App.js:147-151 | the dialog's arrow differs only in its cached incoming rows, which are empty when the source is missing |
| App.BlockDataFor | src/App.js:351 | a missing source offers no own rows |
| App.ModalSeesSource | src/App.js:147-151 | after a recompute, the dialog of an arrow from an existing tab sees that tab's incoming and own rows |
| App.GetIncomingData | src/App.js:179-192 | the loop yields `IncomingFor` the tab |
| App.App.constructor | src/App.js:21-30 | empty collections and no dialog |
| App.App.SetTabs | src/App.js:53-57 | the tabs become the new value |
| App.App.SetArrows | src/App.js:60-64 | the arrows become the new value |
| App.App.CleanTab | src/App.js:67-72 | the tabs become `CleanTab`; well-formedness kept |
| App.App.AddTab | src/App.js:82-89 | the state becomes `AddTab`; well formed when the id is fresh |
| App.App.RenameTab | src/App.js:92-95 | the tabs become `RenameTab`; well-formedness kept |
| App.App.DeleteTab | src/App.js:98-105 | the state becomes `DeleteTab`; well-formedness kept |
| App.App.UpdateArrow | src/App.js:108-113 | only the arrows change, to `UpdateArrow`; well formed when the new arrow is attached |
| App.App.UpdateTabPosition | src/App.js:116-119 | the positions become `UpdateTabPosition`; well-formedness kept |
| App.App.UpdateArrowEnd | src/App.js:122-134 | only the arrows change, to `UpdateArrowEnd`; well-formedness kept |
| App.App.OpenModalTab | src/App.js:137-139 | the tab dialog shows the tab |
| App.App.CloseModalTab | src/App.js:142-144 | no tab dialog |
| App.App.OpenModalArrow | src/App.js:147-151 | the arrow dialog shows `ArrowForModal` |
| App.App.CloseModalArrow | src/App.js:154-156 | no arrow dialog |
| App.App.OpenConfirmation | src/App.js:159-161 | the request waits for confirmation |
| App.App.CloseConfirmation | src/App.js:164-166 | nothing waits for confirmation |
| App.App.UpdateDependentData | src/App.js:169-201 | the tabs become `Recompute` of the old tabs; well-formedness kept |
| App.App.UpdateBlockDataBasedOnArrows | src/App.js:210-224 | the tabs become `ApplyArrowContribution`; well-formedness kept |
| App.App.UpdateArrowData | src/App.js:204-207 | the state becomes `UpdateArrowData`; well formed when the arrow is attached |
| App.App.CalculateTab | src/App.js:227-246 | the tabs become `Aggregate.CalculateTab`; well-formedness kept |
| App.App.RemoveArrowData | src/App.js:249-260 | the tabs become `RemoveArrowData`; well-formedness kept |
| App.App.DeleteArrow | src/App.js:263-270 | the state becomes `DeleteArrow` and the arrow dialog closes; well-formedness kept |
| App.App.UpdateTabData | src/App.js:273-278 | the tabs become `SetTabData`; well-formedness kept |
| App.App.ResetData | src/App.js:281-291 | the state becomes empty and well formed |
| App.App.Confirm | src/App.js:358-364 | the pending request is performed, the dialog closes, and a deleted arrow's dialog closes too |
| TabsPage.Remove | src/pages/TabsPage.js:65 | `splice(i, 1)` leaves one element fewer |
| TabsPage.Insert | src/pages/TabsPage.js:66 | `splice(i, 0, x)` adds one element |
| TabsPage.Moved | src/pages/TabsPage.js:64-66 | same length, and the moved tab lands at `to` clamped to the last index |
| TabsPage.MovedDistinct | src/pages/TabsPage.js:63-68 | reordering keeps tab ids distinct |
| TabsPage.MovedTabIds | src/pages/TabsPage.js:63-68 | reordering keeps the set of tab ids |
| TabsPage.MovedAt | src/pages/TabsPage.js:63-68 | element-wise description of the reordered list |
| TabsPage.MovedPermutation | src/pages/TabsPage.js:64-67 | `moveTab` yields a permutation of the tabs of the same length |
| TabsPage.MovedPlacement | src/pages/TabsPage.js:65-66 | the moved tab lands at `to` (clamped), and the others keep their relative order |
| TabsPage.MovedValid | src/pages/TabsPage.js:63-68 | reordering keeps the graph well formed |
| TabsPage.ShiftLeft | src/pages/TabsPage.js:65 | the in-place removal shifts the tail left by one |
| TabsPage.ShiftRight | src/pages/TabsPage.js:66 | the in-place insertion shifts the tail right by one |
| TabsPage.SpliceMove | src/pages/TabsPage.js:64-66 | the two splices on the array compute `Moved` |
| TabsPage.SyncTabs | src/pages/TabsPage.js:91-109 | every tab changes only its incoming rows, rewritten for the action |
| TabsPage.SyncRows | src/pages/TabsPage.js:93-105 | update: same length, rows with the row's id become the row, others kept; delete: the rows without the id in order; any other action: unchanged |
| TabsPage.SyncOptional | src/pages/TabsPage.js:112-138 | an absent list stays absent and a present one gets `SyncRows` |
| TabsPage.Synchronised | src/pages/TabsPage.js:89-145 | same counts; tabs keep id, name and own rows; arrows change only their selection and cached incoming rows |
| TabsPage.SyncArrows | src/pages/TabsPage.js:110-142 | one arrow out per arrow in; an arrow without a source is unchanged; an arrow with one has its selection and cached incoming rows rewritten by `SyncOptional` and nothing else changed |
| TabsPage.UpdateReplacesCopies | src/pages/TabsPage.js:93-100 | an update replaces every incoming copy and keeps lengths and all other rows |
| TabsPage.DeleteRemovesCopies | src/pages/TabsPage.js:101-105 | a delete removes every incoming copy and keeps the rest in order |
| TabsPage.ArrowCopies | src/pages/TabsPage.js:110-141 | arrows without a source are untouched; absent lists stay absent; a present selection and a present cached incoming list of an arrow with a source get the same `SyncRows` rewrite as the tabs' copies |
| TabsPage.OtherActionIsNoOp | src/pages/TabsPage.js:96-108 | any action other than update or delete changes nothing |
| TabsPage.UpdateAllTabsValid | src/pages/TabsPage.js:89-145 | the synchronisation keeps the graph well formed |
| TabsPage.EditedCopyLosesTag | src/pages/TabsPage.js:93-99 | after an update, the copy no longer carries the delivering arrow's tag, and removing that arrow's rows leaves it |
| TabsPage.AfterUpdateTabData | src/pages/TabsPage.js:81-86 | ids and names are kept; with no active tab or an unknown one, exactly the tabs with the id take the new own rows and nothing else changes; tabs that are neither edited nor active keep their own rows; with a known active tab, every tab's incoming rows are `IncomingFor` its id |
| TabsPage.UpdateTabDataEffect | src/pages/TabsPage.js:81-86 | with the edited tab active, its own rows become `Labelled` of the edited tab (same count, ids, tags and cells but `col3`, which holds the share), the other tabs keep their own rows, and every tab's incoming rows are `IncomingFor` its id |
| TabsPage.CalculateAfterEdit | src/pages/TabsPage.js:81-86 | calculating after an edit keeps count, ids and names, leaves an unknown active tab's edit as is, keeps the own rows of tabs neither edited nor active, and recomputes incoming rows from the tabs before the edit |
| TabsPage.TabsPage.constructor | src/pages/TabsPage.js:46-48 | no active tab |
| TabsPage.TabsPage.MoveTab | src/pages/TabsPage.js:63-68 | the tabs become `Moved`; well-formedness kept |
| TabsPage.TabsPage.SetActiveTab | src/pages/TabsPage.js:71-73 | the active tab is the id |
| TabsPage.TabsPage.UpdateTabData | src/pages/TabsPage.js:81-86 | the tabs become `AfterUpdateTabData`; well-formedness kept |
| TabsPage.TabsPage.UpdateAllTabs | src/pages/TabsPage.js:89-145 | tabs and arrows become `Synchronised`; well-formedness kept |
| ModalArrow.FirstIds | src/components/ModalArrow.js:61 | the `Map`'s keys: the distinct ids of the candidates, each exactly once |
| ModalArrow.LastWith | src/components/ModalArrow.js:61 | the `Map`'s value for an id: the last candidate with that id |
| ModalArrow.UniqueData | src/components/ModalArrow.js:59-61 | one row per key, in key order |
| ModalArrow.UniqueDataDistinct | src/components/ModalArrow.js:59-61 | pairwise distinct ids, and exactly the candidates' ids |
| ModalArrow.UniqueDataKeepsLast | src/components/ModalArrow.js:61 | each entry is a candidate row, the last one with its id |
| ModalArrow.FirstOccurrenceOrder | src/components/ModalArrow.js:61 | entries are ordered by the first occurrence of their ids |
| ModalArrow.UniqueStep | src/components/ModalArrow.js:61 | setting a row into the `Map` adds a new key at the end and overwrites an existing key's value in place |
| ModalArrow.BuildUniqueData | src/components/ModalArrow.js:61 | filling the `Map` row by row and reading its values yields `UniqueData` |
| ModalArrow.Toggle | src/components/ModalArrow.js:30-37 | the row's selected state flips; deselecting filters the row's id out and keeps the rest in order; other rows keep their multiplicity |
| ModalArrow.ToggleTwice | src/components/ModalArrow.js:31-37 | an unselected row is appended at the end, and toggling it again restores the selection |
| ModalArrow.ModalArrow.constructor | src/components/ModalArrow.js:3-7 | candidates are `UniqueData(blockData + incomingData)`; the selection is the arrow's or empty; flag clear |
| ModalArrow.ModalArrow.SyncSelectAll | src/components/ModalArrow.js:64-66 | the flag is set exactly when the selection is as long as the candidate list (the source compares lengths, not contents) |
| ModalArrow.ModalArrow.HandleRowSelection | src/components/ModalArrow.js:30-40 | the selection becomes `Toggle`, and the flag agrees with it |
| ModalArrow.ModalArrow.HandleSelectAllChange | src/components/ModalArrow.js:49-56 | a set flag empties the selection, a clear one selects every candidate; the flag flips |
| ModalArrow.ModalArrow.HandleSave | src/components/ModalArrow.js:43-46 | the arrow is saved with the selection and the dialog closes |
| ModalArrow.ModalArrow.HandleDelete | src/components/ModalArrow.js:115 | deleting the arrow waits for confirmation |
| ModalArrow.ModalArrow.HandleClickOutside | src/components/ModalArrow.js:12-22 | a press outside closes the dialog |
| TabTable.SetCell | src/components/TabTable.js:23 | only the one cell changes, to the value |
| TabTable.FindRow | src/components/TabTable.js:23 | `find` by id: found exactly when some row has the id, and the result is the first row with it |
| TabTable.EditedData | src/components/TabTable.js:21-25 | the length is kept; an unknown id changes nothing |
| TabTable.EditChangesOneCell | src/components/TabTable.js:23-25 | with distinct ids, only column `col` of the row with the id changes |
| TabTable.AppendRow | src/components/TabTable.js:38 | one row with the form's cells and a fresh id is appended; existing rows unchanged |
| TabTable.DeleteUndoesAppend | src/components/TabTable.js:36-66 | deleting the appended row gives the rows back |
| TabTable.SavedOwnRows | src/pages/TabsPage.js:81-86 | saving new own rows for the active tab makes them that tab's own rows, up to the recalculated `col3` |
| TabTable.InputChangeSyncsCopies | src/components/TabTable.js:21-28 | after an edit, every incoming copy of the row in every tab is the edited row |
| TabTable.DeleteRowRemovesCopies | src/components/TabTable.js:61-66 | after a delete, no tab holds an incoming copy of the row |
| TabTable.AfterInputChange | src/components/TabTable.js:21-28 | counts, ids and names kept; tabs other than the active one keep their own rows; the active tab's own rows match `EditedData` one for one (same ids, same cells but the recalculated `col3`); an unknown row id leaves the arrows unchanged |
| TabTable.AfterDeleteRow | src/components/TabTable.js:61-66 | counts, ids and names kept; other tabs keep their own rows; the active tab's own rows match the filtered rows one for one, in order (same ids, same cells but the recalculated `col3`), and none has the id |
| TabTable.DeletedRowGone | src/components/TabTable.js:61-66 | after saving the filtered rows and synchronising the delete, the active tab's own rows are the filtered rows in order (up to `col3`) and none has the id |
| TabTable.TabTable.constructor | src/components/TabTable.js:7-15 | an empty new-row form |
| TabTable.TabTable.HandleInputChange | src/components/TabTable.js:21-28 | tabs and arrows become `AfterInputChange` |
| TabTable.TabTable.HandleNewRowChange | src/components/TabTable.js:31-33 | the form's one cell changes |
| TabTable.TabTable.AddNewRow | src/components/TabTable.js:36-51 | the appended rows are saved; arrows unchanged; the form is emptied |
| TabTable.TabTable.DeleteRow | src/components/TabTable.js:61-66 | tabs and arrows become `AfterDeleteRow` |
| TabTable.TabTable.ClickClean | src/components/TabTable.js:74-76 | cleaning the shown tab waits for confirmation |
| ModalTab.ModalTab.constructor | src/components/ModalTab.js:7 | the name field starts as the tab's name |
| ModalTab.ModalTab.SetNewName | src/components/ModalTab.js:7 | the name field holds the new text |
| ModalTab.ModalTab.HandleSave | src/components/ModalTab.js:28-31 | the tab is renamed and the dialog closes; well-formedness kept |
| ModalTab.ModalTab.HandleDelete | src/components/ModalTab.js:34-37 | deleting the tab waits for confirmation and the dialog closes |
| ModalTab.ModalTab.ClickClean | src/components/ModalTab.js:40-43 | cleaning the tab waits for confirmation and the dialog closes |
| ModalTab.ModalTab.HandleClickOutside | src/components/ModalTab.js:14-24 | a press outside closes the dialog |
| DraggableTabs.TabUnder | src/pages/DraggableTabs.js:145-155 | the first position whose inclusive rectangle (100×50 when unmeasured) holds the point, or none when none does |
| DraggableTabs.DragEndpoint | src/pages/DraggableTabs.js:72-81 | the dragged end shifts by the delta and detaches; the other end stays where and as it was |
| DraggableTabs.DragBody | src/pages/DraggableTabs.js:83-96 | both ends shift by the delta, so length and direction are kept; both detach |
| DraggableTabs.DragFollowsCursor | src/pages/DraggableTabs.js:64-82 | over any sequence of moves, the end is displaced by the cursor's total displacement |
| DraggableTabs.MoveChangesOnlyDragged | src/pages/DraggableTabs.js:64-97 | a move changes only arrows with the dragged id; no drag or an unknown id changes nothing |
| DraggableTabs.MovedArrowsValid | src/pages/DraggableTabs.js:64-99 | a move keeps the graph well formed |
| DraggableTabs.ReleaseAttaches | src/pages/DraggableTabs.js:102-127 | over a tab, the dragged end of the arrows with the id attaches to it at the attachment point, and nothing else changes; elsewhere nothing changes |
| DraggableTabs.ReleasedValid | src/pages/DraggableTabs.js:102-127 | a release keeps the graph well formed |
| DraggableTabs.NewArrow | src/pages/DraggableTabs.js:135-142 | a detached arrow at (200 + 50n, 200) to (300 + 50n, 300) with nothing selected |
| DraggableTabs.MovedArrows | src/pages/DraggableTabs.js:72-97 | same length; nothing dragged changes nothing; only arrows with the dragged end's or body's id can change |
| DraggableTabs.Reattach | src/pages/DraggableTabs.js:113-122 | arrows without the id unchanged; an arrow with the id attaches its dragged end to the tab at the point and nothing else of it changes |
| DraggableTabs.Released | src/pages/DraggableTabs.js:102-123 | same length and ids; no end drag changes nothing; only arrows with the dragged id change |
| DraggableTabs.PositionOf | src/pages/DraggableTabs.js:249 | found exactly when a position has the id |
| DraggableTabs.Reattached | src/pages/DraggableTabs.js:252-269 | a start at the tab moves to the nearest point to the old end; an end at the tab moves to the nearest point to the old start, or to the old end for a self-loop; ends not at the tab, attachments and data are kept |
| DraggableTabs.FollowTab | src/pages/DraggableTabs.js:252-273 | the successive updates keep the length and every arrow's id |
| DraggableTabs.FollowTabUntouched | src/pages/DraggableTabs.js:260-272 | arrows not attached to the tab cause no update |
| DraggableTabs.Followed | src/pages/DraggableTabs.js:247-275 | same length and ids; an unknown tab changes nothing |
| DraggableTabs.FollowedUntouched | src/pages/DraggableTabs.js:247-275 | when no arrow is attached to the tab, nothing changes |
| DraggableTabs.FollowTabPointwise | src/pages/DraggableTabs.js:247-275 | with distinct arrow ids, the successive updates reattach each arrow on its own |
| DraggableTabs.DraggableTabs.constructor | src/pages/DraggableTabs.js:12-18 | nothing dragged, and no size measured |
| DraggableTabs.DraggableTabs.UpdateTabSize | src/pages/DraggableTabs.js:41-48 | only the entry for the tab changes |
| DraggableTabs.DraggableTabs.BeginDragBody | src/pages/DraggableTabs.js:212 | the body drag starts at the cursor |
| DraggableTabs.DraggableTabs.BeginDragEnd | src/pages/DraggableTabs.js:220-228 | the end drag starts at the cursor |
| DraggableTabs.DraggableTabs.MoveDragged | src/pages/DraggableTabs.js:72-97 | the `updateArrow` call of a move leaves the arrows as `MovedArrows` |
| DraggableTabs.DraggableTabs.HandleMouseMove | src/pages/DraggableTabs.js:64-99 | the arrows become `MovedArrows` by the cursor's displacement; the drag origin follows the cursor only while dragging; well-formedness kept |
| DraggableTabs.DraggableTabs.HandleMouseUp | src/pages/DraggableTabs.js:102-127 | the arrows become `Released`; both drags are cleared; well-formedness kept |
| DraggableTabs.DraggableTabs.HandleAddTab | src/pages/DraggableTabs.js:130-132 | the state becomes `AddTab` |
| DraggableTabs.DraggableTabs.HandleAddArrow | src/pages/DraggableTabs.js:135-142 | one `NewArrow` is appended; well-formedness kept |
| DraggableTabs.DraggableTabs.UpdateConnectedArrows | src/pages/DraggableTabs.js:247-275 | the arrows become `Followed`; well-formedness kept |
| DraggableTabs.DraggableTabs.FollowOne | src/pages/DraggableTabs.js:253-272 | one loop step: the remaining updates from the new arrows equal the updates from the old ones; well-formedness kept |
| DraggableTabs.DraggableTabs.HandleTabDragStop | src/pages/DraggableTabs.js:241-244 | the position is stored and the attached arrows follow; well-formedness kept |

## Left out

- Persistence is left out. This covers `localStorage` reads at start-up, the storage writes in the setters, and JSON round-tripping. It is I/O; the setters are plain field assignments.
- JSX rendering, routing, the drag-and-drop tab bar and `Rnd` are left out, as is registering document listeners. They are UI plumbing.
- The confirmation dialog's text and its cancel button are left out. The gate is `App.App.confirmation`; cancelling is `CloseConfirmation`.
- The geometry is left out:
  - `getNearestPointOnTab` and `getDistance`, because they use the DOM, floating point and `Math.sqrt`; they are the `nearest` parameter.
  - `updateAllTabSizes` and `componentDidUpdate`, because they measure the DOM; `UpdateTabSize` is modelled.
  - The end points drawn by `renderArrow`, because they are display-only.
- Floating point is left out.
  - `parseFloat` on decimals, signs, whitespace and `NaN` is not modelled.
  - `toFixed` uses binary rounding; the model rounds the exact share half-up.
  - Signs are not read, so in the model the total bounds each part and no coefficient is `Infinity`.
  - In the source, `parseFloat` keeps the sign. Contents such as "5" and "-5" give a zero total, so the table view and the tab dialog show "Infinity" and "-Infinity", and `calculateTab` writes them into `col3` (src/App.js:232-235).
- The coefficient and extraction-coefficient visibility toggles are left out. They only show or hide columns.
- `handleDoubleClick` and the calculate button of the tab page are left out. The first only looks up a tab to open its dialog. The second only forwards to `calculateTab`, which `App.App.CalculateTab` models.
- `handleKeyPress` is left out. Enter only calls `addNewRow`.
- React batching of state updates is replaced by sequential composition.
- In-place mutation of arrow objects is replaced by value semantics. `updateConnectedArrows` writes into the stored arrow objects before calling `updateArrow`. With distinct arrow ids, both give the per-arrow result of `DraggableTabs.FollowTabPointwise`.
- Generated identifiers are parameters. Freshness is assumed where validity depends on it (`App.App.AddTab`).
- TabTable.TabTable.HandleInputChange: for a row id not in the tab, the model does not call `updateAllTabs`. The source calls it with a row whose id is undefined, which matches nothing.
