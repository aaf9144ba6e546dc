# Tree-view multi-select behaviour, modelled in Dafny

This project models the multi-select behaviour that the animation manager
attaches to its tree view (`TreeViewMultiSelectBehavior`). The behaviour keeps
three things in step:

- the `IsSelected` flag that is attached to every tree view item container;
- the `SelectedItems` list, which is owned by the view model and holds
  `DataContext ?? item` for each selected container;
- the anchor container (`_anchorItem`), which is the fixed end of a
  Shift-click range.

It reacts to the tree view's `Selected` and `Unselected` events according to
the Ctrl and Shift keys:

- a plain click selects only the clicked item;
- Ctrl-click toggles the item;
- Shift-click selects the range between the anchor and the item;
- Ctrl+Shift-click is ignored.

Every walk is a pre-order walk over the item containers that have been
generated ("realised"). An ungenerated container is skipped together with
its subtree.

Modules:

- `Wrappers`: `Option`, used where the source has a nullable reference.
- `Tree`: the containers and the walk `Expanded` (`GetExpandedTreeViewItems`).
  - Nodes are identified by `NodeId`; the source compares containers by
    reference.
  - An item's optional DataContext is a `Context` with an identity and its
    `ToString()` text. The text is used only by the disconnected-item test.
  - `Payload` is `DataContext ?? item`, identified by the object alone.
- `ListSync`: the flag store and the list, and `SetFlag`.
  - `SetFlag` is `SetIsSelected` followed by the change callback
    `OnSelectedChanged`, which runs only when the value really changes.
  - `Synced` is the invariant that the list mirrors the flags.
- `Intents`: each event as a function of the state before it and of the
  walk, with the lemmas that say what each intent achieves.
- `Behavior`: the class `TreeViewMultiSelectBehavior`.
  - Its fields are the flags, the list and the anchor.
  - Its methods follow the source's loops and assignments.
  - The event handlers and the three intents (`ToggleSelect`,
    `SingleSelect`, `AnchorMultiSelect`) are proved equal to their functions
    in `Intents`.
  - `SetIsSelected` is proved equal to `ListSync.SetFlag`.
  - The range loop `SelectRange` is proved equal to `ListSync.WriteAll` with
    the marks `RangeMarks`.
  - `OnSelectedChanged` states its list update directly.
- `Scenarios`: two folders with three leaves, followed through a click, a
  Shift-click and a Ctrl-click.

In three places the code does something other than what one would naturally
expect, and the model follows the code:

- **Shift-click on the anchor itself.** One would expect only that item to
  end up selected. But the range loop flips its inside-range flag only once,
  so the clicked item and every walked item after it end up selected.
  `RangeSelectToEnd` states this.
- **An anchor that is no longer walked.** One would expect a new anchor to be
  chosen. The code keeps the old one, which simply never matches:
  - with the target walked, the same "from the target to the end" rule
    applies;
  - with the target not walked either, every walked container ends up
    unselected (`RangeSelectNoEdge`).
- **A plain click.** One would expect it to clear every other selection. It
  clears only the walked containers. A selected container that was never
  generated, or that lies under one that was not, stays selected and stays in
  the list. The walk never looks at `IsExpanded`, so the generated children
  of a collapsed item are still walked and cleared. `SingleSelectList` states the
  list result under the condition that nothing outside the walk was
  selected.

## Model

| member | source | states |
|---|---|---|
| `Tree.Expanded` | Controls/TreeViewMultiSelectBehavior.cs:119-135 | definition: the walk `GetExpandedTreeViewItems`, each realised child followed by the walk of its own children, siblings in index order |
| `Tree.PayloadOf` | Controls/TreeViewMultiSelectBehavior.cs:113-115 | definition: `item.DataContext ?? item`, the value added to or removed from the list |
| `Tree.Disconnected` | Controls/TreeViewMultiSelectBehavior.cs:71 | definition: the container has a DataContext whose text is `{DisconnectedItem}` |
| `ListSync.Flag` | Controls/TreeViewMultiSelectBehavior.cs:32-39 | definition: `GetIsSelected`, false for a container that was never written |
| `ListSync.WriteAll` | Controls/TreeViewMultiSelectBehavior.cs:162-165 | definition: one `SetIsSelected` per walked container, in walk order, each with its own value |
| `Tree.ExpandedAppend` | Controls/TreeViewMultiSelectBehavior.cs:124-134 | the walk of a sibling list is the walk of its first part followed by the walk of the rest (siblings visited in index order) |
| `Tree.PreOrder` | Controls/TreeViewMultiSelectBehavior.cs:119-135 | a realised child appears after everything its earlier siblings contribute, is followed at once by the walk of its own children, then by its later siblings |
| `Tree.Partition` | Controls/TreeViewMultiSelectBehavior.cs:126-128 | every node of the tree is either visited by the walk or lies under an ungenerated container, and the visited ones are visited once each: walked ids plus hidden ids make up exactly all ids |
| `Tree.ExpandedDistinct` | Controls/TreeViewMultiSelectBehavior.cs:119-135 | when containers are distinct objects the walk never yields the same container twice |
| `Tree.HiddenSkipped` | Controls/TreeViewMultiSelectBehavior.cs:126-128 | a node under a null container is never yielded by the walk |
| `Scenarios.SampleWalk` | Controls/TreeViewMultiSelectBehavior.cs:119-135 | the sample tree walks as FolderA, Leaf1, Leaf2, FolderB, Leaf3 (`Walk`) |
| `ListSync.IndexOf` | Controls/TreeViewMultiSelectBehavior.cs:115 | the position found holds the value and no earlier position does (the occurrence IList.Remove takes out) |
| `ListSync.Remove` | Controls/TreeViewMultiSelectBehavior.cs:115 | removal takes out exactly one occurrence of the payload (multiset difference), leaves a list without it unchanged, and on a duplicate-free list leaves exactly the other elements |
| `ListSync.RemoveFirst` | Controls/TreeViewMultiSelectBehavior.cs:115 | the occurrence removed is the first one, and the elements before and after it keep their order |
| `ListSync.DropAt` | Controls/TreeViewMultiSelectBehavior.cs:115 | cutting one position out of the list removes one occurrence of that element from the multiset and, on a duplicate-free list, leaves exactly the other elements |
| `ListSync.SetFlag` | Controls/TreeViewMultiSelectBehavior.cs:104-117 | after writing IsSelected the container's flag is the written value and every other container's flag is unchanged. Writing the value already held changes nothing. A change to true appends the container's payload to the list. A change to false removes the payload's first occurrence |
| `ListSync.WriteAllFlags` | Controls/TreeViewMultiSelectBehavior.cs:41-44 | after one SetIsSelected per walked container each ends with the value written to it and containers not written keep their flags |
| `ListSync.WriteAllSettled` | Controls/TreeViewMultiSelectBehavior.cs:104-117 | writing every container the value it already has changes neither flags nor list, since the callback only fires on a change |
| `ListSync.SetFlagSynced` | Controls/TreeViewMultiSelectBehavior.cs:104-117 | with distinct payloads, if the list held exactly the payloads of the flagged containers, once each, it still does after one flag write |
| `ListSync.WriteAllSynced` | Controls/TreeViewMultiSelectBehavior.cs:104-117 | the same list/flag agreement survives any run of flag writes |
| `Intents.Single` | Controls/TreeViewMultiSelectBehavior.cs:160-168 | definition: `SingleSelect`, every walked container written whether it is the target, then the target anchored |
| `Intents.Toggle` | Controls/TreeViewMultiSelectBehavior.cs:170-175 | definition: `ToggleSelect`, the target written its opposite flag, anchored only when there was no anchor |
| `Intents.RangeMarks` | Controls/TreeViewMultiSelectBehavior.cs:149-157 | definition: the value the range loop writes to each walked container, inside-range flag or edge |
| `Intents.ResolvedAnchor` | Controls/TreeViewMultiSelectBehavior.cs:139-145 | definition: the current anchor, else the default one picked from the walk |
| `Intents.Range` | Controls/TreeViewMultiSelectBehavior.cs:137-158 | definition: `AnchorMultiSelect`, no change when no anchor can be found, else the range writes with the resolved anchor kept |
| `Intents.OnSelected` | Controls/TreeViewMultiSelectBehavior.cs:68-91 | definition: the Selected handler, ignoring disconnected containers and Ctrl+Shift, then Ctrl to toggle, Shift to range-select, no modifier to single-select |
| `Intents.OnUnselected` | Controls/TreeViewMultiSelectBehavior.cs:60-66 | definition: the Unselected handler, clearing the container's flag only when neither Ctrl nor Shift is held |
| `Intents.InRangeStep` | Controls/TreeViewMultiSelectBehavior.cs:153-155 | the inside-range flag after a loop turn is the old flag flipped exactly when the container is the anchor or the target |
| `Intents.RangeBetween` | Controls/TreeViewMultiSelectBehavior.cs:147-157 | with anchor and target distinct and both walked, the loop writes true exactly on the inclusive segment between them, whichever comes first |
| `Intents.RangeOneEdge` | Controls/TreeViewMultiSelectBehavior.cs:147-157 | with only one walked edge the flag flips once and never back: that container and all after it are written true, earlier ones false |
| `Intents.RangeNoEdge` | Controls/TreeViewMultiSelectBehavior.cs:147-157 | with neither anchor nor target walked every walked container is written false |
| `Intents.RangeSymmetric` | Controls/TreeViewMultiSelectBehavior.cs:153 | swapping anchor and target writes the same values |
| `Intents.LastSelected` | Controls/TreeViewMultiSelectBehavior.cs:141-142 | the position returned is a selected walked container with no selected container after it; none is returned only when no walked container is selected |
| `Intents.DefaultAnchor` | Controls/TreeViewMultiSelectBehavior.cs:141-144 | an anchor is found exactly when the walk is non-empty |
| `Intents.DefaultAnchorChoice` | Controls/TreeViewMultiSelectBehavior.cs:141-142 | the anchor picked when none is set is the last flagged walked container, or the first walked one when none is flagged |
| `Intents.RangeSelectAnchor` | Controls/TreeViewMultiSelectBehavior.cs:139-145 | with no anchor set, Shift-click anchors at the last selected walked container, else at the first walked one, and does nothing at all when the walk is empty |
| `Intents.RangeSelectBetween` | Controls/TreeViewMultiSelectBehavior.cs:137-158 | Shift-click with a walked anchor distinct from the target selects exactly the walked segment between them, leaves unwalked containers alone and keeps the anchor |
| `Intents.RangeSelectToEnd` | Controls/TreeViewMultiSelectBehavior.cs:137-158 | Shift-click on the anchor itself, or with only one end walked, selects that end and every walked container after it and deselects the walked ones before it |
| `Intents.RangeSelectNoEdge` | Controls/TreeViewMultiSelectBehavior.cs:147-157 | Shift-click with a stale anchor on a target that is not walked deselects every walked container, leaves unwalked containers alone and keeps the anchor |
| `Intents.RangeSelectIdempotent` | Controls/TreeViewMultiSelectBehavior.cs:137-158 | repeating the same Shift-click changes nothing |
| `Intents.SingleSelectFlags` | Controls/TreeViewMultiSelectBehavior.cs:160-168 | a plain click leaves only the target selected among walked containers, keeps unwalked flags and makes the target the anchor |
| `Intents.SingleSelectList` | Controls/TreeViewMultiSelectBehavior.cs:160-168 | when no container outside the walk was selected and the list was in step, the list afterwards is exactly the target's payload |
| `Intents.SingleSelectIdempotent` | Controls/TreeViewMultiSelectBehavior.cs:160-168 | repeating the same plain click changes nothing |
| `Intents.ToggleSelectResult` | Controls/TreeViewMultiSelectBehavior.cs:170-175 | Ctrl-click flips only the target's flag, appends its payload when it becomes selected or removes one occurrence when it becomes unselected, and sets the anchor only when none was set |
| `Intents.RemoveAppended` | Controls/TreeViewMultiSelectBehavior.cs:113-115 | adding a payload that was absent and then removing it gives back the very same list |
| `Intents.ToggleTwice` | Controls/TreeViewMultiSelectBehavior.cs:170-175 | assuming a selected container's payload is in the list (always so while the list is in step), two Ctrl-clicks on it restore every flag and the list's contents, and the very same list when it started unselected and unlisted; the anchor stays where the first click put it |
| `Intents.FlipBack` | Controls/TreeViewMultiSelectBehavior.cs:172 | writing a container's flag to its opposite and back restores every flag. A selected container's payload is removed and then appended. An unselected container's payload is appended and then removed |
| `Intents.IgnoredIntents` | Controls/TreeViewMultiSelectBehavior.cs:68-91 | a disconnected item or a Ctrl+Shift click leaves flags, list and anchor unchanged |
| `Intents.UnselectedGuard` | Controls/TreeViewMultiSelectBehavior.cs:60-66 | the Unselected event clears the item's flag only when neither Ctrl nor Shift is held, otherwise changes nothing, and never touches other flags or the anchor |
| `Intents.OnSelectedSynced` | Controls/TreeViewMultiSelectBehavior.cs:68-91 | every Selected event keeps list membership equal to "flag is true" over containers with distinct payloads |
| `Intents.OnUnselectedSynced` | Controls/TreeViewMultiSelectBehavior.cs:60-66 | every Unselected event keeps list membership equal to "flag is true" |
| `Scenarios.ClickLeaf1` | Controls/TreeViewMultiSelectBehavior.cs:160-168 | a plain click on Leaf1 with nothing selected flags and lists only Leaf1 and anchors there |
| `Scenarios.RangeLeaf1Leaf3` | Controls/TreeViewMultiSelectBehavior.cs:151-157 | the range loop from Leaf1 to Leaf3 marks every container but FolderA |
| `Scenarios.RangeWrites` | Controls/TreeViewMultiSelectBehavior.cs:156 | those writes append Leaf2, FolderB and Leaf3 after Leaf1, in walk order, and leave FolderA unflagged |
| `Scenarios.ShiftClickLeaf3` | Controls/TreeViewMultiSelectBehavior.cs:137-158 | Shift-click on Leaf3 with Leaf1 anchored gives that state and keeps the anchor |
| `Scenarios.CtrlClickFolderA` | Controls/TreeViewMultiSelectBehavior.cs:170-175 | Ctrl-click on the unselected FolderA flags it, appends its payload and keeps the anchor |
| `Scenarios.ClickShiftCtrl` | Controls/TreeViewMultiSelectBehavior.cs:68-91 | click Leaf1, Shift-click Leaf3, Ctrl-click FolderA yields the lists [Leaf1], [Leaf1, Leaf2, FolderB, Leaf3], then FolderA appended, with the anchor staying on Leaf1 |
| `Behavior.TreeViewMultiSelectBehavior.constructor` | Controls/TreeViewMultiSelectBehavior.cs:21-30 | a new behaviour has no anchor and the given flags and list |
| `Behavior.TreeViewMultiSelectBehavior.OnSelectedChanged` | Controls/TreeViewMultiSelectBehavior.cs:104-117 | the list gains the container's payload when its flag is now true and loses one occurrence of it otherwise; flags and anchor unchanged |
| `Behavior.TreeViewMultiSelectBehavior.SetIsSelected` | Controls/TreeViewMultiSelectBehavior.cs:41-44 | the new flags and list are `SetFlag` of the old ones (callback only on a real change); the anchor is unchanged |
| `Behavior.TreeViewMultiSelectBehavior.ToggleSelect` | Controls/TreeViewMultiSelectBehavior.cs:170-175 | the new state is `Toggle` of the old one, whose effect `ToggleSelectResult` and `ToggleTwice` state |
| `Behavior.TreeViewMultiSelectBehavior.SingleSelect` | Controls/TreeViewMultiSelectBehavior.cs:160-168 | the loop over the walk leaves the state `Single` of the old one, whose effect `SingleSelectFlags` and `SingleSelectList` state |
| `Behavior.TreeViewMultiSelectBehavior.AnchorMultiSelect` | Controls/TreeViewMultiSelectBehavior.cs:137-158 | anchor resolution, the early return and the range loop leave the state `Range` of the old one, whose effect the `RangeSelect*` lemmas state |
| `Behavior.TreeViewMultiSelectBehavior.SelectRange` | Controls/TreeViewMultiSelectBehavior.cs:147-157 | the foreach loop with its inside-range flag performs exactly the writes `RangeMarks` prescribes (`RangeBetween`, `RangeOneEdge`, `RangeNoEdge` say which), in walk order, and leaves the anchor alone |
| `Behavior.TreeViewMultiSelectBehavior.OnTreeViewItemSelected` | Controls/TreeViewMultiSelectBehavior.cs:68-91 | the dispatch on disconnected item, Ctrl+Shift, Ctrl, Shift and no modifier leaves the state `OnSelected` of the old one |
| `Behavior.TreeViewMultiSelectBehavior.OnTreeViewItemUnselected` | Controls/TreeViewMultiSelectBehavior.cs:60-66 | the guarded clear leaves the state `OnUnselected` of the old one |

## Left out

- `GetTree` and the lookup of the one behaviour on the tree through
  `Interaction.GetBehaviors` (Controls/TreeViewMultiSelectBehavior.cs:93-102 and 106-108)
  are a visual-tree walk and a registry lookup. The behaviour owns its list
  directly.
- The case where `SelectedItems` is null is left out: the list is always
  bound in this model, so the `selectedItems != null` guard (line 110) always
  passes.
- `OnAttached`/`OnDetaching` and the dependency-property registrations are
  event and binding plumbing.
- `Keyboard.Modifiers` becomes a `Modifiers` parameter, read once per event.
  Keys other than Ctrl and Shift are masked out by the source and do not
  appear.
- Re-entrant events are not modelled. `IsSelected` is registered as binding
  two-way by default (line 34). Where it is bound to the container's own
  selection (in markup that is not part of this model), a write inside a loop
  can raise nested `Selected`/`Unselected` events. Here each handler runs to completion on its
  own.
- Reading the walk once: `GetExpandedTreeViewItems()` is called up to three
  times in one Shift-click. The model computes it once per event, because
  flag writes do not change which containers are realised.
- `SingleSelect`'s `.Where(x => x != null)` filter is dropped, because the
  walk never yields null.
- Payload equality: `IList.Remove` uses the payload's `Equals`. The model
  compares a data context by its object identity and a container by its id.
  This matches reference equality for view-model objects that do not override
  `Equals`.
- MainWindow.xaml.cs is not part of this model. It holds file dialogs,
  message boxes, a dispatcher timer, floating-point canvas layout, and atlas
  add/remove tied to loading image files.
- ViewModel/MainViewModel.cs is not part of this model. It holds command
  wiring, and its unsaved-changes logic is driven by message-box results.
- IO/FileReadWrite.cs is not part of this model. It holds XML output, path
  handling and a stub reader.
