# Ticker cloning, container and grid layout — a verified model

This project models the stateful core of the manawave ticker engine in Dafny
and proves its behaviour.

- **Template cloner** (`src/clones/Cloner.ts`). It holds an ordered list of
  registered templates and a cursor, `_currTemplateIndex`. The cursor starts
  at -1 and hands out clones round-robin. `Clones.Cloner` is a class with those
  two fields. Its methods are proved against two specification functions:
  `NextIndex`, one `getNextTemplate` step, and `Advance`, n such steps.
  Template removal is proved against the filter function `Seqs.Filter`.
  `Template` is a class, so removal by reference is real identity. Its ghost
  counter `restoreCount` records every `restore()` call. A clone is a value
  that records the template it was made from.
- **Item container** (`Container<T>` and `clearContainer`). The container is
  an ordered sequence. `add` appends. `find` returns every entry that satisfies
  a predicate, in order. `delete` removes the first entry identical to its
  argument. `clearContainer` deletes the entries one at a time. Identity is
  Dafny's `==`: on objects it compares references, on `int` it compares values.
  The tests' deletion cases (`src/ticker/__test__/ticker.test.ts:50-61`) are
  consistent with comparing references.
- **Grid layout** (`layoutGrid`). For each item it overwrites the `position`
  field in place with the item's row-major cell. Column `i mod columns` times
  the item width gives x; row `i div columns` times the item height gives y.
  Coordinates are integers, so the 123 × 123 case is exact.
- **Scenarios**. The container and layout test cases of
  `src/ticker/__test__/ticker.test.ts` are client methods whose
  postconditions are the tests' expectations. The source has no test of the
  cloner; the two cloner scenarios (`SequenceRepeats`, `RemoveRestoresKept`)
  are this model's own, built from the behaviour of `src/clones/Cloner.ts`.

The cloner's code behaves as follows, which its names and comments do not
suggest (the comment at `src/clones/Cloner.ts:55-57` speaks only of resuming
a sequence where the last one stopped). The model follows the code:

- `cloneSequence` first sets the cursor to 0, not -1. A sequence therefore
  clones templates 1, 2, …, count-1, 0. It does not start from the first
  template.
- `removeTemplate(t, true)` calls `restore()` on every entry it **keeps**. It
  never calls it on the removed template. A template registered twice is
  restored twice.
- `removeTemplate` resets the cursor to -1 even when the template was not
  registered.
- `clearTemplates` walks the array it started with, while `removeTemplate`
  replaces the field. The list always ends empty. The cursor becomes -1 only
  if there was at least one template. On an empty list the loop never runs,
  so the cursor is left unchanged.
- `getNextTemplate` with no templates sets the cursor to 0 and returns
  nothing (`undefined`, modelled as `null`).

The container and layout implementation files are not part of this model.
Their behaviour is a modelling choice that agrees with the test cases:
`delete` removes the first identical entry, `clearContainer` deletes every
entry held on entry, and `layoutGrid` places at most one item per cell.
"## Left out" lists the points the tests leave open.

## Model

| member | source | states |
|---|---|---|
| `Clones.NextIndex` | src/clones/Cloner.ts:77-83 | one step wraps to 0 when cursor+1 reaches the count; from any cursor in [-1, count) the result is a valid index and equals (cursor+1) mod count; with no templates it is 0 |
| `Clones.AdvanceIsModular` | src/clones/Cloner.ts:41-53 | after n ≥ 1 `getNextTemplate` steps from cursor c in [-1, count), the cursor is (c+n) mod count |
| `Clones.FullCycleReturns` | src/clones/Cloner.ts:62-71 | a full cycle of count steps from a valid index returns to it |
| `Clones.SequenceIndex` | src/clones/Cloner.ts:62-69 | with the cursor seeded at 0, clone i uses template i+1, and the last clone wraps to template 0 |
| `Clones.RotationKeepsEntries` | src/clones/Cloner.ts:62-69 | the order 1, …, count-1, 0 uses every registered entry exactly once (same multiset) |
| `Clones.TemplatesDetermineClones` | src/clones/Cloner.ts:45 | a clone carries nothing but its template: equal template lists mean equal clone lists |
| `Clones.WithoutSpec` | src/clones/Cloner.ts:22-31 | removal drops every entry identical to the selected template and keeps every other entry with its multiplicity; the length shrinks by the selected template's count; removing an unregistered template changes nothing |
| `Clones.Advance` | src/clones/Cloner.ts:44-45 | with at least one template and a cursor in [-1, count), n steps keep the cursor in [-1, count), and at least one step gives a valid index |
| `Clones.Without` | src/clones/Cloner.ts:23-28 | the kept entries are entries of the list, none of them identical to the selected template; the result is no longer than the list |
| `Clones.SizeFromCounts` | src/clones/Cloner.ts:23-28 | the filtered list is shorter by exactly the number of entries identical to the selected template |
| `Clones.Template.constructor` | src/clones/Template.ts:8-18 | a new template has not been restored |
| `Clones.Template.Restore` | src/clones/Template.ts:20-22 | each `restore()` call is counted once |
| `Clones.Cloner.constructor` | src/clones/Cloner.ts:6-15 | a new cloner has no templates and cursor -1 |
| `Clones.Cloner.AddTemplate` | src/clones/Cloner.ts:18-20 | appends the template at the end; earlier templates and the cursor are unchanged |
| `Clones.Cloner.RemoveTemplate` | src/clones/Cloner.ts:22-31 | the list becomes the old list without the selected template, in order; the cursor is -1; with `restore`, each kept template's counter rises by its number of entries and the removed one's never does; without it no counter changes |
| `Clones.KeepOthers` | src/clones/Cloner.ts:23-28 | the `filter` callback loop: the result is the list without the selected template, in order; each kept entry is restored once per occurrence when `restore` is set, and the selected template never is |
| `Clones.Cloner.ClearTemplates` | src/clones/Cloner.ts:33-37 | the list ends empty with no template restored; the cursor is -1, or unchanged if the list was already empty |
| `Clones.Cloner.GetNextTemplate` | src/clones/Cloner.ts:77-83 | the cursor takes one `NextIndex` step and the template at the new cursor is returned; with no templates the cursor is 0 and nothing is returned |
| `Clones.Cloner.Clone` | src/clones/Cloner.ts:41-53 | n clones when at least one template is registered, none otherwise; clone i is made from template (c+1+i) mod count; the cursor ends at (c+n) mod count, or is untouched when nothing is cloned; the list is unchanged |
| `Clones.Cloner.CloneSequence` | src/clones/Cloner.ts:58-74 | exactly count clones, from templates 1, …, count-1, 0, so each template is used once; with `continuing` the cursor is restored, otherwise it ends at 0 |
| `Seqs.Filter` | src/clones/Cloner.ts:23-28 | every kept entry satisfies the predicate and comes from the list; every entry that satisfies it is kept; the result is no longer than the input |
| `Seqs.FilterAppend` | src/clones/Cloner.ts:23-28 | filtering keeps the relative order of the entries |
| `Seqs.FilterCounts` | src/clones/Cloner.ts:23-28 | a kept value keeps all its occurrences and a dropped value keeps none |
| `Seqs.FilterKeepsAll` | src/clones/Cloner.ts:23-28 | when every entry passes, the filter returns the list unchanged |
| `Seqs.FilterNone` | src/ticker/__test__/ticker.test.ts:71-79 | when no entry passes, the result is empty |
| `Containers.RemoveFirst` | src/ticker/__test__/ticker.test.ts:35-45 | deleting an absent value changes nothing; deleting a present one shortens the list by one |
| `Containers.RemoveFirstCounts` | src/ticker/__test__/ticker.test.ts:35-45 | deletion removes exactly one occurrence of the value, if present, and no occurrence of anything else |
| `Containers.RemoveFirstAt` | src/ticker/__test__/ticker.test.ts:47-61 | deletion closes the gap at the first identical position and keeps the remaining order |
| `Containers.Container.constructor` | src/ticker/__test__/ticker.test.ts:15 | a new container is empty |
| `Containers.Container.Add` | src/ticker/__test__/ticker.test.ts:22-24 | appends the item and keeps the earlier entries |
| `Containers.Container.Find` | src/ticker/__test__/ticker.test.ts:26-32 | returns exactly the entries that satisfy the predicate, in container order |
| `Containers.Container.Delete` | src/ticker/__test__/ticker.test.ts:47-61 | removes the first entry identical to the argument; a distinct object with equal fields is not identical, and then nothing changes |
| `Containers.ClearContainer` | src/ticker/__test__/ticker.test.ts:63-80 | deleting every entry it held leaves the container empty |
| `Containers.FindsAdded` | src/ticker/__test__/ticker.test.ts:22-32 | once x is added, a find matching exactly x returns x at index 0, whatever else is held |
| `Containers.FindAfterDelete` | src/ticker/__test__/ticker.test.ts:34-45 | after deleting x, a find for x is empty if and only if x was held at most once |
| `Containers.DeleteOtherKeeps` | src/ticker/__test__/ticker.test.ts:50-56 | deleting a different entry (a distinct object, even one with equal fields) leaves x findable |
| `Geometry.Positionable.constructor` | src/types.d.ts:6-8 | a placeable item starts at the given position |
| `Layout.PlacedCount` | src/ticker/__test__/ticker.test.ts:159-176 | the number of items placed is the item count or the cell count, whichever is smaller; a grid with no columns or no rows places nothing |
| `Layout.CellPosition` | src/ticker/__test__/ticker.test.ts:178-189 | the row-major cell of index i: column i mod columns times the item width, row i div columns times the item height; its properties are the lemmas below |
| `Layout.CellPositionEdges` | src/ticker/__test__/ticker.test.ts:178-189 | with a non-negative item size no position is negative; an index in the first row lies at (index·width, 0); an index in the first column has x = 0 |
| `Layout.GridCovers` | src/ticker/__test__/ticker.test.ts:178-189 | every cell (col·w, row·h) of a columns × rows grid is the position of index row·columns+col, which lies inside the grid |
| `Layout.CellInGrid` | src/ticker/__test__/ticker.test.ts:94-144 | every index inside the grid lands on one of its cells (col < columns, row < rows) |
| `Layout.CellsDistinct` | src/ticker/__test__/ticker.test.ts:178-189 | for a non-empty item size, distinct indices get distinct positions, so no cell is covered twice |
| `Layout.LayoutGrid` | src/ticker/__test__/ticker.test.ts:159-176 | the container keeps the same items; each of the first min(items, columns·rows) items that does not recur later among them gets its row-major cell in place, using only the item size and the column count (the grid area's size plays no part); other items keep their positions |
| `TickerScenarios.Record.constructor` | src/ticker/__test__/ticker.test.ts:47-51 | a test object `{ n: number }` holds the number it is given |
| `TickerScenarios.FindAndRemoveNumbers` | src/ticker/__test__/ticker.test.ts:14-46 | lookups made out of order find 123, 789 and 456 at index 0; after each deletion the lookup is empty |
| `TickerScenarios.DeleteByIdentity` | src/ticker/__test__/ticker.test.ts:47-62 | deleting a structurally equal twin leaves the original findable; deleting the original removes it |
| `TickerScenarios.ClearThenFind` | src/ticker/__test__/ticker.test.ts:63-80 | after `clearContainer`, a find with any predicate is empty |
| `TickerScenarios.LayoutThreeByThree` | src/ticker/__test__/ticker.test.ts:88-190 | nine items laid out 3 × 3 at 123 × 123 in a 300 × 300 area cover every position (0/123/246, 0/123/246) |
| `TickerScenarios.SequenceRepeats` | src/clones/Cloner.ts:58-74 | over three templates t0, t1, t2, a sequence without `continuing` gives clones of t1, t2, t0 in that order, and a second sequence gives the same clones |
| `TickerScenarios.RemoveRestoresKept` | src/clones/Cloner.ts:22-53 | removing the middle template with `restore` restores the other two once each and not the removed one; after clearing, `clone(5)` returns nothing |

## Left out

- Cloning callback `fn`: dropped from `clone` and `cloneSequence`. It is a side-effecting hook into code the core does not see. The clones come back in the order the hook would have seen them.
- Clone objects: `src/clones/Clone.ts` is not part of this model. A clone is a value that records its template, so two clones of one template are equal. Object identity of clones is not modelled.
- Template internals: the DOM wrapping (`wrappedDiv`, `parentElement`) and the element move inside `restore()` are left out. A template is an opaque reference with a ghost restore counter.
- `allTemplates` getter: not a separate member. It only exposes the `templates` field.
- Clones.Cloner.Clone: the count `n` is an integer. A fractional `n`, which the source's `i < n` loop rounds up, is not modelled.
- Container and layout implementations: `src/ticker/container.ts` and `src/ticker/layout.ts` are not part of this model. Their behaviour is a modelling choice consistent with the test cases. `find` is modelled as returning all matches as a sequence, not a lazy iterator.
- Containers.Container.Find: the predicate is a pure function of the entry (`T -> bool`). A predicate that reads an entry's mutable fields, such as the layout test's match on position (`src/ticker/__test__/ticker.test.ts:181-186`), is not modelled; `TickerScenarios.LayoutThreeByThree` reads the positions directly instead.
- Containers.Container.Delete: removing only the FIRST identical entry is an assumption. The tests never hold a duplicate, so they do not decide between removing the first entry and removing every entry.
- Containers.ClearContainer: emptying the whole container, and walking a snapshot of the entries rather than the live list, are assumptions. The test (`src/ticker/__test__/ticker.test.ts:73-75`) only looks up `n === 1` three times.
- Layout.LayoutGrid: placing only the first min(items, columns·rows) items (`Layout.PlacedCount`) is an assumption. The test fills the grid exactly, so it does not show what happens to surplus items.
- Layout.LayoutGrid: sizes and positions are integers, not floating-point numbers. Repetition counts are natural numbers, so negative or fractional counts are not modelled.
- Ticker state and system, motion, wraparound and the animation controller are left out. Their source is not part of this model. The deterministic-motion and autoplay tests depend on that source and on a recorded snapshot.
- The slider (`src/slider.ts`), the element wiring (`src/ouroboros.ts`), custom-element registration (`src/index.ts`), lifecycle callbacks (`src/lib/Lifecycle.ts`) and the documentation site are left out. They consist of DOM, animation-timeline and UI code.
