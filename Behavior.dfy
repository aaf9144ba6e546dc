/**
 * The multi-select behaviour attached to a tree view. It owns the anchor
 * container and, in this model, the flag store and the selected-items list it
 * writes to. The tree of realised containers is passed to each event, since
 * containers are generated and discarded as the user expands and scrolls.
 */
module Behavior {
  import opened Wrappers
  import opened Tree
  import opened ListSync
  import opened Intents

  class TreeViewMultiSelectBehavior {
    /** The attached IsSelected value of each container. */
    var flags: map<NodeId, bool>
    /** The bound SelectedItems list. */
    var selectedItems: seq<Payload>
    /** `_anchorItem`: the fixed end of Shift-click ranges. */
    var anchorItem: Option<NodeId>

    constructor (flags: map<NodeId, bool>, selectedItems: seq<Payload>)
      ensures Current() == SelectState(Selection(flags, selectedItems), None)
    {
      this.flags := flags;
      this.selectedItems := selectedItems;
      this.anchorItem := None;
    }

    function Sel(): Selection
      reads this
    {
      Selection(flags, selectedItems)
    }

    function Current(): SelectState
      reads this
    {
      SelectState(Sel(), anchorItem)
    }

    function GetIsSelected(item: Item): bool
      reads this
    {
      Flag(flags, item.id)
    }

    /** The change callback: mirror the container's new flag in the list. */
    method OnSelectedChanged(item: Item)
      modifies this
      ensures flags == old(flags) && anchorItem == old(anchorItem)
      ensures selectedItems ==
        if Flag(flags, item.id) then old(selectedItems) + [PayloadOf(item)]
        else Remove(old(selectedItems), PayloadOf(item))
    {
      if GetIsSelected(item) {
        selectedItems := selectedItems + [PayloadOf(item)];
      } else {
        selectedItems := Remove(selectedItems, PayloadOf(item));
      }
    }

    /** Writing the attached property runs the change callback only when the value changes. */
    method SetIsSelected(item: Item, value: bool)
      modifies this
      ensures Sel() == SetFlag(old(Sel()), item, value) && anchorItem == old(anchorItem)
    {
      if GetIsSelected(item) != value {
        flags := flags[item.id := value];
        OnSelectedChanged(item);
      }
    }

    /** Ctrl-click: flip the target; it becomes the anchor only if there is none yet. */
    method ToggleSelect(item: Item)
      modifies this
      ensures Current() == Toggle(old(Current()), item)
    {
      SetIsSelected(item, !GetIsSelected(item));
      if anchorItem.None? {
        anchorItem := Some(item.id);
      }
    }

    /** Plain click: walk the realised containers selecting only the target, then anchor at it. */
    method SingleSelect(tree: seq<Slot>, item: Item)
      modifies this
      ensures Current() == Single(old(Current()), Expanded(tree), item)
    {
      var items := Expanded(tree);
      ghost var marks := SingleMarks(items, item);
      var i := 0;
      while i < |items|
        invariant 0 <= i <= |items|
        invariant anchorItem == old(anchorItem)
        invariant WriteAll(Sel(), items[i..], marks[i..]) == WriteAll(old(Sel()), items, marks)
      {
        WriteAllStep(Sel(), items, marks, i);
        SetIsSelected(items[i], items[i].id == item.id);
        i := i + 1;
      }
      anchorItem := Some(item.id);
    }

    /**
     * Shift-click: settle the anchor if there is none (last selected walked
     * container, else the first one, else give up), then select the range.
     */
    method AnchorMultiSelect(tree: seq<Slot>, newItem: Item)
      modifies this
      ensures Current() == Range(old(Current()), Expanded(tree), newItem)
    {
      var items := Expanded(tree);
      if anchorItem.None? {
        var selected := LastSelected(items, flags);
        anchorItem := if selected.Some? then Some(items[selected.value].id)
                      else if items == [] then None
                      else Some(items[0].id);
        if anchorItem.None? {
          return;
        }
      }
      assert anchorItem == ResolvedAnchor(old(Current()), items);
      SelectRange(items, anchorItem.value, newItem);
    }

    /**
     * The range loop of a Shift-click: walk once, flipping the inside-range
     * flag at the anchor and at the target, and select each container that is
     * inside the range or is one of the two.
     */
    method SelectRange(items: seq<Item>, anchor: NodeId, newItem: Item)
      modifies this
      ensures Sel() == WriteAll(old(Sel()), items, RangeMarks(items, anchor, newItem.id))
      ensures anchorItem == old(anchorItem)
    {
      ghost var marks := RangeMarks(items, anchor, newItem.id);
      var inSelectionRange := false;
      var i := 0;
      while i < |items|
        invariant 0 <= i <= |items|
        invariant anchorItem == old(anchorItem)
        invariant inSelectionRange == InRangeAfter(items, i, anchor, newItem.id)
        invariant WriteAll(Sel(), items[i..], marks[i..]) == WriteAll(old(Sel()), items, marks)
      {
        var item := items[i];
        var isEdge := item.id == anchor || item.id == newItem.id;
        if isEdge {
          inSelectionRange := !inSelectionRange;
        }
        InRangeStep(items, i, anchor, newItem.id);
        WriteAllStep(Sel(), items, marks, i);
        SetIsSelected(item, inSelectionRange || isEdge);
        i := i + 1;
      }
    }

    /** The Selected event: ignore disconnected containers and Ctrl+Shift, else dispatch on the modifiers. */
    method OnTreeViewItemSelected(tree: seq<Slot>, item: Item, mods: Modifiers)
      modifies this
      ensures Current() == OnSelected(old(Current()), Expanded(tree), item, mods)
    {
      if Disconnected(item) {
        return;
      }
      if !(mods.ctrl && mods.shift) {
        if mods.ctrl {
          ToggleSelect(item);
        } else if mods.shift {
          AnchorMultiSelect(tree, item);
        } else {
          SingleSelect(tree, item);
        }
      }
    }

    /** The Unselected event: clear the flag unless Ctrl or Shift is held. */
    method OnTreeViewItemUnselected(item: Item, mods: Modifiers)
      modifies this
      ensures Current() == OnUnselected(old(Current()), item, mods)
    {
      if !mods.ctrl && !mods.shift {
        SetIsSelected(item, false);
      }
    }
  }
}
