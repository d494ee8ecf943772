# Linear selectable regions of rei-ui, modelled in Dafny

rei-ui moves the focus of a "10-foot" interface (TV remote, gamepad) through
a tree of *selectable regions*. Each region keeps at most one selected
element among its children. A directional command (`left`, `right`, `up`,
`down`, `back`) is handled in one of two ways:
- **Locally:** the region moves its selection to the neighbouring sibling on its own axis.
- **By delegation:** the region passes the command to a selectable parent.

Selecting a child that is itself a region enters it (`select`). Selecting
any other element fires a `selection-changed` event on it.

The project models both versions of the `linearSelectable` mixin and the
`Selectable` contract.

**Shared parts:**
- `options.dfy`, `dom.dfy`: the element tree. It holds ordered children, a parent map and the set of region elements. `previousElementSibling`/`nextElementSibling` are the neighbouring positions in the parent's children. A ghost `Ranking` witnesses that the tree is acyclic.
- `selectable.dfy`: `isSelectable`, the per-region selection map and the invariant "a region selects nothing or one of its own children".
- `linear_common.dfy`: what both versions declare alike.
  - the `Direction` enum and the configuration fields with their constructor defaults
  - `canSelectElement` and `__getSelectedElement`
  - the sibling a scan reaches
  - the axis rule that decides whether a region handles a command or passes it on

**The current version** (`src/lib/selectable/linear-selectable.ts`):
- `linear_selectable.dfy`: the ghost functions `Enter`, `Choose` and `Move` give the effect of `select`, `__selectElement` and the five commands on the selection state. This is the new selection of every region plus the events fired. They carry the child-membership invariant.
- The class `World` holds the state and performs the operations in place, including the mutual recursion between regions. Each method is proved to have exactly that effect. Its frames show that navigation changes only the selections and the event log, never the configuration fields.
- `linear_selectable_properties.dfy`: the promised behaviours of those functions.
- `linear_selectable_scenario.dfy`: a walk-through on a concrete three-element row.

**The older version** (`lib/selectable/linear-selectable.ts`):
- `legacy_linear_selectable.dfy` models it the same way, with three differences:
  - `_selectInternal` returns the preference it is given.
  - Two uses of `null` throw a `TypeError`: `select()` with nothing to pick reaches `'select' in null` inside `isSelectable`, and `__previous`/`__next` without a current element read a sibling of `null`. This is an explicit outcome `Threw`, which keeps the selection writes made before the throw.
  - Nested `select` calls need not end. A ghost `depth` bounds them, and a run deeper than that is `Exhausted`.
- `legacy_linear_selectable_properties.dfy`: its behaviours.
- `legacy_comparison.dfy`: where the two versions agree, and the inputs on which the older one goes wrong (see Findings).

**Termination.** Entering goes down the tree and delegation goes up it.
- Current version: the measure is lexicographic. Its first component is 0 for `select`/`__selectElement`/`__previous`/`__next` (rank of the region, strictly decreasing on entry) and 1 for commands (distance to the top rank, strictly decreasing on delegation).
- Older version: the entry chain is measured by the ghost `depth` instead.

**How the two versions differ from the documentation.** The `Selectable` doc comments describe wrapping from the first to the last element (`wrapStart`, `wrapEnd`). Neither version reads these fields, so the model keeps them as configuration and does not wrap. The model follows the code.

## Model

| member | source | states |
|---|---|---|
| `Selectable.IsSelectable` | src/lib/selectable/selectable.ts:76-78 | an element is selectable exactly when it is one of the region elements; `null` is not |
| `Selectable.SelectableParent` | src/lib/selectable/selectable.ts:76-78 | the parent is returned exactly when there is one and it is a region |
| `LinearCommon.CanSelectElement` | src/lib/selectable/linear-selectable.ts:14-16 | true exactly for an existing element |
| `LinearCommon.ScanStopsAtFirstSibling` | src/lib/selectable/linear-selectable.ts:140-160 | the skip loop of `__previous`/`__next` never advances: the first sibling read is accepted |
| `LinearCommon.CurrentElement` | src/lib/selectable/linear-selectable.ts:178-186 | `__getSelectedElement` is null exactly when there is no selection and no child; under the invariant it is a child of the region |
| `LinearCommon.Target` | src/lib/selectable/linear-selectable.ts:133-163 | the sibling a scan reaches is a child of the same region |
| `LinearCommon.TargetAt` | src/lib/selectable/linear-selectable.ts:133-163 | from position i a scan reaches position i - 1 (previous) or i + 1 (next), or nothing at either end |
| `Dom.PreviousSibling` | src/lib/selectable/linear-selectable.ts:140 | `previousElementSibling` is another child of the same parent |
| `Dom.NextSibling` | src/lib/selectable/linear-selectable.ts:156 | `nextElementSibling` is a child of the same parent, and another one when the parent lists no child twice |
| `LinearSelectable.SelectInternal` | src/lib/selectable/linear-selectable.ts:127-129 | the hook gives no preferred element, whatever it is passed |
| `LinearSelectable.Enter` | src/lib/selectable/linear-selectable.ts:65-79 | `select` keeps every region's selection a child of it, selects the current element or first child, announces at most one non-region element inside the region, and leaves every region outside it unchanged |
| `LinearSelectable.Choose` | src/lib/selectable/linear-selectable.ts:165-176 | `__selectElement(e)` makes `e` the selection, keeps the invariant, announces at most one non-region element inside the region, and leaves regions outside it unchanged |
| `LinearSelectable.Move` | src/lib/selectable/linear-selectable.ts:81-119 | a command keeps the invariant and announces at most one element, never a region |
| `LinearSelectable.World.constructor` | src/lib/selectable/linear-selectable.ts:47-57 | every region starts horizontal, without back or wrapping, with no selection and no events |
| `LinearSelectable.World.SelectedElement` | src/lib/selectable/linear-selectable.ts:59-61 | the getter returns null or a child of the region |
| `LinearSelectable.World.Configure` | src/lib/selectable/selectable.ts:22-39 | only the host changes a region's configuration fields |
| `LinearSelectable.World.Select` | src/lib/selectable/linear-selectable.ts:65-79 | the new selections and the appended events are exactly `Enter`'s; the invariant is kept |
| `LinearSelectable.World.Left` | src/lib/selectable/linear-selectable.ts:81-87 | the new state is exactly `Move` for `left`; configuration untouched |
| `LinearSelectable.World.Right` | src/lib/selectable/linear-selectable.ts:89-95 | the new state is exactly `Move` for `right`; configuration untouched |
| `LinearSelectable.World.Up` | src/lib/selectable/linear-selectable.ts:97-103 | the new state is exactly `Move` for `up`; configuration untouched |
| `LinearSelectable.World.Down` | src/lib/selectable/linear-selectable.ts:105-111 | the new state is exactly `Move` for `down`; configuration untouched |
| `LinearSelectable.World.Back` | src/lib/selectable/linear-selectable.ts:113-119 | the new state is exactly `Move` for `back`; configuration untouched |
| `LinearSelectable.World.ResetSelection` | src/lib/selectable/linear-selectable.ts:121-123 | only this region's selection is cleared; no event, no other field |
| `LinearSelectable.World.Previous` | src/lib/selectable/linear-selectable.ts:133-147 | returns true exactly when a previous sibling exists, then the state is `Choose` of it; otherwise nothing changes |
| `LinearSelectable.World.Next` | src/lib/selectable/linear-selectable.ts:149-163 | returns true exactly when a next sibling exists, then the state is `Choose` of it; otherwise nothing changes |
| `LinearSelectable.World.SelectElement` | src/lib/selectable/linear-selectable.ts:165-176 | always returns true; the new state is exactly `Choose`'s |
| `LinearSelectableProperties.EnterEmptyRegion` | src/lib/selectable/linear-selectable.ts:65-79 | `select()` on a region with no selection and no children changes nothing and announces nothing |
| `LinearSelectableProperties.EnterSelectsFirstChild` | src/lib/selectable/linear-selectable.ts:70-78 | `select()` on an unselected region with children has exactly the effect of `__selectElement` on `children[0]`, which ends selected |
| `LinearSelectableProperties.EnterKeepsSelection` | src/lib/selectable/linear-selectable.ts:70-78 | `select()` on a region with a selection has exactly the effect of `__selectElement` on that element again: re-entered if a region, re-announced if not |
| `LinearSelectableProperties.EnterTwice` | src/lib/selectable/linear-selectable.ts:65-79 | a second `select()` on the state the first one reached changes no selection further and announces the same element again |
| `LinearSelectableProperties.LandingInside` | src/lib/selectable/linear-selectable.ts:165-176 | the element `select()` ends on depends only on the selections inside the region |
| `LinearSelectableProperties.EnterAnnouncesLanding` | src/lib/selectable/linear-selectable.ts:165-176 | `select()` announces exactly the element it ends on, or nothing when it ends in an empty region |
| `LinearSelectableProperties.ChooseLeaf` | src/lib/selectable/linear-selectable.ts:165-176 | selecting a non-region child sets it and appends exactly that one event |
| `LinearSelectableProperties.ChooseRegion` | src/lib/selectable/linear-selectable.ts:165-176 | selecting a child region has exactly the effect (new selections and events) of `select()` on it after it is set, and never announces the region itself |
| `LinearSelectableProperties.OffAxisPassesOn` | src/lib/selectable/linear-selectable.ts:81-111 | an off-axis direction changes nothing locally and is exactly the parent's same command when the parent is selectable; else nothing happens |
| `LinearSelectableProperties.OnAxisMovesLocally` | src/lib/selectable/linear-selectable.ts:81-111 | an on-axis command whose scan succeeds selects the sibling here and is not delegated |
| `LinearSelectableProperties.MoveToLeaf` | src/lib/selectable/linear-selectable.ts:133-176 | reaching a non-region sibling selects it and announces exactly it |
| `LinearSelectableProperties.FailedScanPassesOn` | src/lib/selectable/linear-selectable.ts:81-111 | an on-axis command whose scan fails is delegated exactly as an off-axis one |
| `LinearSelectableProperties.BackWithinRegion` | src/lib/selectable/linear-selectable.ts:113-119 | with `canMoveBack`, `back` is a previous-scan and never delegates, even when it fails |
| `LinearSelectableProperties.BackLeavesRegion` | src/lib/selectable/linear-selectable.ts:113-119 | without `canMoveBack`, `back` changes nothing locally and is delegated to a selectable parent |
| `LinearSelectableProperties.MoveHandledAbove` | src/lib/selectable/linear-selectable.ts:81-119 | a command is dropped with nothing changed, or has exactly the effect of `__selectElement` of its target in a region at or above the start that handles it |
| `LinearSelectableProperties.ResetThenEnter` | src/lib/selectable/linear-selectable.ts:121-123 | after a reset, `select()` starts again from the first child |
| `LinearSelectableScenario.RowEnter` | src/lib/selectable/linear-selectable.ts:65-79 | in the walk-through row, `select()` selects and announces the first element |
| `LinearSelectableScenario.RowTargets` | src/lib/selectable/linear-selectable.ts:133-163 | the scans of the walk-through reach the expected neighbours and nothing past the end |
| `LinearSelectableScenario.RowMoveFinds` | src/lib/selectable/linear-selectable.ts:81-95 | a left/right scan that finds a neighbour selects and announces it |
| `LinearSelectableScenario.RowMoveDropped` | src/lib/selectable/linear-selectable.ts:81-95 | a left/right past the end goes to the vertical parent, which drops it |
| `LinearSelectableScenario.RowWalk` | src/lib/selectable/linear-selectable.ts:65-95 | select, right three times, left twice: 2, 3, 4, 4, 3, 2, with one event per operation that changes the selection and none for the dropped third `right()` |
| `LinearSelectableScenario.RowStart` | src/lib/selectable/linear-selectable.ts:47-79 | a constructed, configured and entered `World` selects 2 and has announced 2 |
| `LinearSelectableScenario.RowStep` | src/lib/selectable/linear-selectable.ts:81-95 | one walk-through command on a `World` reaches the next expected state |
| `LinearSelectableScenario.Walk` | src/lib/selectable/linear-selectable.ts:59-95 | reading `selectedElement` after each operation gives 2, 3, 4, 4, 3, 2 |
| `LegacyLinearSelectable.SelectInternal` | lib/selectable/linear-selectable.ts:118-120 | the hook hands back the preferred element unchanged |
| `LegacyLinearSelectable.Pick` | lib/selectable/linear-selectable.ts:60-70 | a preference wins; otherwise the current selection or first child; null exactly when there is neither |
| `LegacyLinearSelectable.Enter` | lib/selectable/linear-selectable.ts:60-70 | a `select` that returns announces exactly one non-region element, and writes only this region's and regions' selections |
| `LegacyLinearSelectable.Choose` | lib/selectable/linear-selectable.ts:144-155 | `__selectElement(e)` sets `e`; null throws after that write; a non-region `e` is announced alone |
| `LegacyLinearSelectable.Move` | lib/selectable/linear-selectable.ts:72-110 | a command that returns announces at most one element, never a region |
| `LegacyLinearSelectable.World.constructor` | lib/selectable/linear-selectable.ts:48-56 | the same configuration defaults; `__selectedElement` and `selectedElement` undefined for every region |
| `LegacyLinearSelectable.World.SelectedElement` | lib/selectable/linear-selectable.ts:39 | the public field is declared and never assigned: reading it gives nothing |
| `LegacyLinearSelectable.World.Configure` | lib/selectable/linear-selectable.ts:40-44 | only the host changes a region's configuration fields |
| `LegacyLinearSelectable.World.Select` | lib/selectable/linear-selectable.ts:60-70 | the new state, the events and whether it throws are exactly `Enter`'s |
| `LegacyLinearSelectable.World.Left` | lib/selectable/linear-selectable.ts:72-78 | exactly `Move` for `left`, including a throw from `__previous` |
| `LegacyLinearSelectable.World.Right` | lib/selectable/linear-selectable.ts:80-86 | exactly `Move` for `right`, including a throw from `__next` |
| `LegacyLinearSelectable.World.Up` | lib/selectable/linear-selectable.ts:88-94 | exactly `Move` for `up` |
| `LegacyLinearSelectable.World.Down` | lib/selectable/linear-selectable.ts:96-102 | exactly `Move` for `down` |
| `LegacyLinearSelectable.World.Back` | lib/selectable/linear-selectable.ts:104-110 | exactly `Move` for `back` |
| `LegacyLinearSelectable.World.ResetSelection` | lib/selectable/linear-selectable.ts:112-114 | clears only this region's `__selectedElement`; no event |
| `LegacyLinearSelectable.World.Previous` | lib/selectable/linear-selectable.ts:124-132 | throws with nothing changed when there is no current element; otherwise true exactly when a previous sibling exists, with `Choose`'s state, else nothing changes |
| `LegacyLinearSelectable.World.Next` | lib/selectable/linear-selectable.ts:134-142 | the same with the next sibling |
| `LegacyLinearSelectable.World.SelectElement` | lib/selectable/linear-selectable.ts:144-155 | returns true for an element; the new state, events and throw are exactly `Choose`'s, passing the raw prior selection on |
| `LegacyLinearSelectableProperties.EnterDepthMonotone` | lib/selectable/linear-selectable.ts:60-70 | a `select` run that ends within a depth ends identically with any larger depth |
| `LegacyLinearSelectableProperties.ChooseDepthMonotone` | lib/selectable/linear-selectable.ts:144-155 | the same for `__selectElement` |
| `LegacyLinearSelectableProperties.MoveDepthMonotone` | lib/selectable/linear-selectable.ts:72-110 | the same for the five commands |
| `LegacyLinearSelectableProperties.EnterEmptyRegionThrows` | lib/selectable/linear-selectable.ts:60-70 | `select()` with nothing to pick passes null to `__selectElement`, which throws |
| `LegacyLinearSelectableProperties.EnterWithoutPreference` | lib/selectable/linear-selectable.ts:65-69 | without a preference `select()` falls back to the current selection, else `children[0]` |
| `LegacyLinearSelectableProperties.EnterAdoptsPreference` | lib/selectable/linear-selectable.ts:60-70 | `select(p)` with a non-region `p` selects and announces `p`, child or not |
| `LegacyLinearSelectableProperties.EnterRegionPreference` | lib/selectable/linear-selectable.ts:144-155 | `select(p)` with a region `p` selects it and enters it with the prior selection as preference |
| `LegacyLinearSelectableProperties.MoveWithoutCurrentThrows` | lib/selectable/linear-selectable.ts:124-142 | an on-axis command on an empty, unselected region throws and changes nothing |
| `LegacyLinearSelectableProperties.OnAxisMovesLocally` | lib/selectable/linear-selectable.ts:72-102 | an on-axis command whose scan succeeds selects the sibling here and is not delegated |
| `LegacyLinearSelectableProperties.FailedScanPassesOn` | lib/selectable/linear-selectable.ts:72-102 | an on-axis direction whose scan from an existing current element finds no sibling is the parent's same command when the parent is selectable; else nothing happens |
| `LegacyLinearSelectableProperties.OffAxisPassesOn` | lib/selectable/linear-selectable.ts:72-102 | an off-axis direction is the parent's same command when it is selectable; else nothing happens |
| `LegacyLinearSelectableProperties.BackWithinRegion` | lib/selectable/linear-selectable.ts:104-110 | with `canMoveBack`, `back` throws, selects the previous sibling or does nothing, and never delegates |
| `LegacyLinearSelectableProperties.BackLeavesRegion` | lib/selectable/linear-selectable.ts:104-110 | without `canMoveBack`, `back` is the parent's `back`, or nothing |
| `LegacyLinearSelectableProperties.SelfEntryNeverEnds` | lib/selectable/linear-selectable.ts:144-159 | a region entered with itself as preference, having itself or nothing selected, calls `select` on itself without end |
| `LegacyComparison.AgreeOnLeafEntry` | lib/selectable/linear-selectable.ts:60-70 | on a sound state, `select()` that lands on a non-region current element is the same in both versions |
| `LegacyComparison.AgreeOnLeafTarget` | lib/selectable/linear-selectable.ts:72-102 | on a sound state, a command handled by reaching a non-region sibling is the same in both versions |
| `LegacyComparison.LegacyAdoptsSibling` | lib/selectable/linear-selectable.ts:144-155 | in the older version, `right()` onto a child region makes that region select its previous sibling, breaking the child invariant |
| `LegacyComparison.CurrentEntersOwnChild` | src/lib/selectable/linear-selectable.ts:165-176 | in the current version, the same command enters the region's own first child |
| `LegacyComparison.LegacyReenterAfterReset` | lib/selectable/linear-selectable.ts:60-70 | in the older version, `select()` on a region whose selected child region was reset never ends |
| `LegacyComparison.CurrentReenterAfterReset` | src/lib/selectable/linear-selectable.ts:65-79 | in the current version, the same `select()` keeps the child region selected and enters its first child |

## Left out

- `fireSelectionEvent` (lib/selectable/events.ts) becomes an append to a ghost event log. The `CustomEvent`, its bubbling and its cancelability are DOM dispatch and are not modelled.
- `dedupingMixin`, the Polymer class composition and `HTMLElementConstructor` are a foreign library. All regions of one document are one `World` object, and a region is a node of its hierarchy.
- The live DOM is a fixed hierarchy value. This covers `children`, `parentElement` and the sibling pointers. Adding or removing elements is not modelled.
- One `None` stands for both `null` and `undefined`. In the older version this is sound only because the child list is fixed: after `select()` throws on an empty region, `__selectedElement` holds `null` (lib/selectable/linear-selectable.ts:146), and because `__getSelectedElement` tests `!== undefined` (:158) that region would not fall back to `children.item(0)` once children were added.
- Native elements with a `select()` method (`<input>`, `<textarea>`) pass `isSelectable`. The current version is modelled for them by placing them in `regions` with no children. The older version is not: its model would run the linear `select` on them, while the source calls the native method, which neither adopts the preference nor throws.
- `isSelectable(this.parentElement)` on a region without a parent evaluates `'select' in null`, which throws. The model treats a missing parent as not selectable, so such a command is dropped.
- `wrapStart` and `wrapEnd` are kept as configuration and never read, as in the code. The wrapping the interface documents is not invented.
- The `while` loops that skip siblings in `__previous` and `__next` are not written as Dafny loops. Their guard calls `canSelectElement` on an existing sibling and it is always true, so the body can never run and a loop would be dead code. `LinearCommon.ScanStopsAtFirstSibling` proves the guard is false on entry, and the methods call it.
- Subclasses that override `_selectInternal` are not modelled; only the base hooks are.
- Every element in `regions` is assumed to run the linear behaviour when it is entered or delegated to. Any other object with a `select` member may implement the `Selectable` interface (src/lib/selectable/selectable.ts:16-69) differently; such parents and children are not modelled, apart from the native `select()` elements above.
- wct.conf.js is test-runner configuration with no logic.
- `LegacyLinearSelectable.World.Select`, `Left`, `Right`, `Up`, `Down`, `Back`, `Previous`, `Next` and `SelectElement` each require that their chain of nested `select` calls ends within the ghost `depth`. A chain that never ends, which `SelfEntryNeverEnds` shows exists, ends in the engine's stack overflow. That is not modelled as a state.
- `LegacyLinearSelectable.Enter` and `Choose` state a frame over "this region and regions" rather than over the subtree. The older version can enter regions outside the subtree, as `LegacyAdoptsSibling` shows.

## Findings

| source | as written | input that shows it | evidently intended | confidence | as-written member | corrected member |
|---|---|---|---|---|---|---|
| lib/selectable/linear-selectable.ts:144-155, 118-120 | `__selectElement` passes the region's previous selection to the child region's `select`, and `_selectInternal` accepts it | region 0 (horizontal) with children 1 (leaf) and 2 (region holding 3), 1 selected; `right()` | region 2 enters its own child 3, which is announced | high; not executed | `LegacyComparison.LegacyAdoptsSibling` | `LegacyComparison.CurrentEntersOwnChild` |
| lib/selectable/linear-selectable.ts:60-70, 157-159 | `select()` passes the result of `__getSelectedElement()` to `__selectElement` without a null check | a region with no children and no selection; `select()` | `select()` does nothing | high; not executed | `LegacyLinearSelectableProperties.EnterEmptyRegionThrows` | `LinearSelectableProperties.EnterEmptyRegion` |
| lib/selectable/linear-selectable.ts:124-142, 157-159 | `__previous`/`__next` read a sibling of `__getSelectedElement()` without a null check | a horizontal region with no children and no selection; `left()` | the scan finds nothing and the command is passed on | high; not executed | `LegacyLinearSelectableProperties.MoveWithoutCurrentThrows` | `LinearSelectableProperties.FailedScanPassesOn` |
| lib/selectable/linear-selectable.ts:60-70, 144-159 | a region entered with itself as preference and no selection of its own picks itself again | region r has selected region e, then `e.resetSelection()`, then `r.select()` | e enters its first child | high; not executed | `LegacyComparison.LegacyReenterAfterReset` | `LegacyComparison.CurrentReenterAfterReset` |
