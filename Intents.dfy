/**
 * What each selection intent does to the flags, the selected-items list and
 * the anchor, stated as functions of the state before the event and of the
 * pre-order walk of the realised containers. The behaviour class proves its
 * methods equal to these; the lemmas here state what the intents achieve.
 */
module Intents {
  import opened Wrappers
  import opened Tree
  import opened ListSync

  /** The two modifier keys the handlers look at: Keyboard.Modifiers masked to Control and Shift. */
  datatype Modifiers = Modifiers(ctrl: bool, shift: bool)

  /** Flags, list, and the anchor container (`_anchorItem`, null when None). */
  datatype SelectState = SelectState(sel: Selection, anchor: Option<NodeId>)

  // ----- Single select (plain click) -----

  /** Mark of each walked container under a plain click: selected exactly when it is the target. */
  function SingleMarks(items: seq<Item>, target: Item): seq<bool>
  {
    seq(|items|, k requires 0 <= k < |items| => items[k].id == target.id)
  }

  function Single(st: SelectState, items: seq<Item>, target: Item): SelectState
  {
    SelectState(WriteAll(st.sel, items, SingleMarks(items, target)), Some(target.id))
  }

  // ----- Toggle select (Ctrl-click) -----

  function Toggle(st: SelectState, target: Item): SelectState
  {
    SelectState(SetFlag(st.sel, target, !Flag(st.sel.flags, target.id)),
                if st.anchor.None? then Some(target.id) else st.anchor)
  }

  // ----- Anchored range select (Shift-click) -----

  /** A container at which the range loop flips its inside-range flag. */
  predicate IsEdge(it: Item, anchor: NodeId, target: NodeId)
  {
    it.id == anchor || it.id == target
  }

  function EdgeCount(items: seq<Item>, anchor: NodeId, target: NodeId): nat
    decreases |items|
  {
    if items == [] then 0
    else EdgeCount(items[..|items| - 1], anchor, target) + (if IsEdge(items[|items| - 1], anchor, target) then 1 else 0)
  }

  /** The inside-range flag once the loop has visited items[..n]: it was flipped an odd number of times. */
  predicate InRangeAfter(items: seq<Item>, n: nat, anchor: NodeId, target: NodeId)
    requires n <= |items|
  {
    EdgeCount(items[..n], anchor, target) % 2 == 1
  }

  /** One loop turn: the inside-range flag flips exactly at an edge. */
  lemma InRangeStep(items: seq<Item>, i: nat, anchor: NodeId, target: NodeId)
    requires i < |items|
    ensures InRangeAfter(items, i + 1, anchor, target) == (InRangeAfter(items, i, anchor, target) != IsEdge(items[i], anchor, target))
  {
    assert items[..i + 1][..i] == items[..i];
    assert items[..i + 1][i] == items[i];
  }

  /** The value the range loop writes to each walked container. */
  function RangeMarks(items: seq<Item>, anchor: NodeId, target: NodeId): seq<bool>
  {
    seq(|items|, k requires 0 <= k < |items| => InRangeAfter(items, k + 1, anchor, target) || IsEdge(items[k], anchor, target))
  }

  /** Position of the last flagged container of the walk, if any. */
  function LastSelected(items: seq<Item>, flags: map<NodeId, bool>): (r: Option<nat>)
    ensures r.Some? ==> r.value < |items| && Flag(flags, items[r.value].id)
    ensures r.Some? ==> forall k :: r.value < k < |items| ==> !Flag(flags, items[k].id)
    ensures r.None? ==> forall k :: 0 <= k < |items| ==> !Flag(flags, items[k].id)
    decreases |items|
  {
    if items == [] then None
    else if Flag(flags, items[|items| - 1].id) then Some(|items| - 1)
    else LastSelected(items[..|items| - 1], flags)
  }

  /** The anchor a range select picks when none is set: the last flagged container, else the first one. */
  function DefaultAnchor(items: seq<Item>, flags: map<NodeId, bool>): (r: Option<NodeId>)
    ensures r.None? <==> items == []
  {
    match LastSelected(items, flags)
    case Some(k) => Some(items[k].id)
    case None => if items == [] then None else Some(items[0].id)
  }

  function ResolvedAnchor(st: SelectState, items: seq<Item>): Option<NodeId>
  {
    if st.anchor.Some? then st.anchor else DefaultAnchor(items, st.sel.flags)
  }

  function Range(st: SelectState, items: seq<Item>, target: Item): SelectState
  {
    var a := ResolvedAnchor(st, items);
    if a.None? then st
    else SelectState(WriteAll(st.sel, items, RangeMarks(items, a.value, target.id)), a)
  }

  // ----- The two event handlers -----

  function OnSelected(st: SelectState, items: seq<Item>, target: Item, mods: Modifiers): SelectState
  {
    if Disconnected(target) then st
    else if mods.ctrl && mods.shift then st
    else if mods.ctrl then Toggle(st, target)
    else if mods.shift then Range(st, items, target)
    else Single(st, items, target)
  }

  function OnUnselected(st: SelectState, target: Item, mods: Modifiers): SelectState
  {
    if !mods.ctrl && !mods.shift then st.(sel := SetFlag(st.sel, target, false)) else st
  }

  // ----- Lemmas: the range loop -----

  /**
   * Counting the flips in a prefix when the edges sit at positions p < q only
   * (a position outside the walk stands for an edge that is not there).
   */
  lemma {:induction false} EdgeCountBelow(items: seq<Item>, a: NodeId, t: NodeId, p: int, q: int, n: nat)
    requires n <= |items| && p < q
    requires forall k :: 0 <= k < |items| ==> (IsEdge(items[k], a, t) <==> k == p || k == q)
    ensures EdgeCount(items[..n], a, t) == (if 0 <= p < n then 1 else 0) + (if 0 <= q < n then 1 else 0)
    decreases n
  {
    if n > 0 {
      EdgeCountBelow(items, a, t, p, q, n - 1);
      assert items[..n][..n - 1] == items[..n - 1];
      assert items[..n][n - 1] == items[n - 1];
    }
  }

  /** Anchor and target distinct and both walked: exactly the segment between them is marked, either way round. */
  lemma RangeBetween(items: seq<Item>, i: nat, j: nat)
    requires DistinctIds(items) && i < |items| && j < |items| && i != j
    ensures var lo, hi := if i < j then i else j, if i < j then j else i;
      forall k :: 0 <= k < |items| ==> RangeMarks(items, items[i].id, items[j].id)[k] == (lo <= k <= hi)
  {
    var a, t := items[i].id, items[j].id;
    var lo, hi := if i < j then i else j, if i < j then j else i;
    forall k | 0 <= k < |items|
      ensures IsEdge(items[k], a, t) <==> k == lo || k == hi
    {
      if k != i && k != j {
        assert items[k].id != a && items[k].id != t by {
          if k < i { assert items[k].id != items[i].id; } else { assert items[i].id != items[k].id; }
          if k < j { assert items[k].id != items[j].id; } else { assert items[j].id != items[k].id; }
        }
      }
    }
    forall k | 0 <= k < |items|
      ensures RangeMarks(items, a, t)[k] == (lo <= k <= hi)
    {
      EdgeCountBelow(items, a, t, lo, hi, k + 1);
    }
  }

  /** Exactly one walked container is an edge: it and every container after it are marked. */
  lemma RangeOneEdge(items: seq<Item>, a: NodeId, t: NodeId, j: nat)
    requires j < |items| && IsEdge(items[j], a, t)
    requires forall k :: 0 <= k < |items| && IsEdge(items[k], a, t) ==> k == j
    ensures forall k :: 0 <= k < |items| ==> RangeMarks(items, a, t)[k] == (j <= k)
  {
    forall k | 0 <= k < |items|
      ensures RangeMarks(items, a, t)[k] == (j <= k)
    {
      EdgeCountBelow(items, a, t, -1, j, k + 1);
    }
  }

  /** Neither anchor nor target is walked: every walked container is unmarked. */
  lemma RangeNoEdge(items: seq<Item>, a: NodeId, t: NodeId)
    requires forall k :: 0 <= k < |items| ==> !IsEdge(items[k], a, t)
    ensures forall k :: 0 <= k < |items| ==> !RangeMarks(items, a, t)[k]
  {
    forall k | 0 <= k < |items|
      ensures !RangeMarks(items, a, t)[k]
    {
      EdgeCountBelow(items, a, t, -2, -1, k + 1);
    }
  }

  lemma {:induction false} EdgeCountSymmetric(items: seq<Item>, a: NodeId, t: NodeId)
    ensures EdgeCount(items, a, t) == EdgeCount(items, t, a)
    decreases |items|
  {
    if items != [] {
      EdgeCountSymmetric(items[..|items| - 1], a, t);
    }
  }

  /** Swapping the roles of anchor and target marks the same containers. */
  lemma RangeSymmetric(items: seq<Item>, a: NodeId, t: NodeId)
    ensures RangeMarks(items, a, t) == RangeMarks(items, t, a)
  {
    forall k | 0 <= k < |items|
      ensures RangeMarks(items, a, t)[k] == RangeMarks(items, t, a)[k]
    {
      EdgeCountSymmetric(items[..k + 1], a, t);
    }
  }

  // ----- Lemmas: what each intent achieves -----

  /** Plain click: among walked containers only the target stays selected; the rest keep their flags; the target becomes the anchor. */
  lemma SingleSelectFlags(st: SelectState, items: seq<Item>, target: Item)
    requires DistinctIds(items)
    ensures var r := Single(st, items, target);
      && r.anchor == Some(target.id)
      && (forall k :: 0 <= k < |items| ==> Flag(r.sel.flags, items[k].id) == (items[k].id == target.id))
      && (forall id :: id !in Ids(items) ==> Flag(r.sel.flags, id) == Flag(st.sel.flags, id))
  {
    WriteAllFlags(st.sel, items, SingleMarks(items, target));
  }

  /**
   * Plain click when nothing outside the walk is selected: the list ends up
   * holding the target's payload and nothing else.
   */
  lemma SingleSelectList(u: set<Item>, st: SelectState, items: seq<Item>, target: Item)
    requires WellFormed(u) && Synced(u, st.sel) && DistinctIds(items) && target in items
    requires forall k :: 0 <= k < |items| ==> items[k] in u
    requires forall x :: x in u && Flag(st.sel.flags, x.id) ==> x in items
    ensures Single(st, items, target).sel.list == [PayloadOf(target)]
  {
    var marks := SingleMarks(items, target);
    var r := Single(st, items, target).sel;
    var p0 := PayloadOf(target);
    WriteAllSynced(u, st.sel, items, marks);
    WriteAllFlags(st.sel, items, marks);
    var k0 :| 0 <= k0 < |items| && items[k0] == target;
    assert Flag(r.flags, target.id);
    assert p0 in r.list;
    forall p | p in r.list
      ensures p == p0
    {
      assert p in Payloads(u);
      var x :| x in u && PayloadOf(x) == p;
      assert Flag(r.flags, x.id);
      if x in items {
        var k :| 0 <= k < |items| && items[k] == x;
        assert x.id == target.id;
      } else {
        assert false;
      }
    }
    SingletonList(r.list, p0);
  }

  lemma SingletonList(l: seq<Payload>, p: Payload)
    requires NoDup(l) && p in l && forall x :: x in l ==> x == p
    ensures l == [p]
  {
    assert l[0] in l && l[|l| - 1] in l;
    assert l[|l| - 1] == l[0];
  }

  /** A second identical plain click changes nothing. */
  lemma SingleSelectIdempotent(st: SelectState, items: seq<Item>, target: Item)
    requires DistinctIds(items)
    ensures Single(Single(st, items, target), items, target) == Single(st, items, target)
  {
    var marks := SingleMarks(items, target);
    WriteAllFlags(st.sel, items, marks);
    WriteAllSettled(Single(st, items, target).sel, items, marks);
  }

  /**
   * Ctrl-click: only the target's flag flips; the target's payload is appended
   * when it becomes selected and one occurrence of it is removed when it
   * becomes unselected; the anchor is set only when there was none.
   */
  lemma ToggleSelectResult(st: SelectState, t: Item)
    ensures var r := Toggle(st, t);
      var was := Flag(st.sel.flags, t.id);
      && Flag(r.sel.flags, t.id) == !was
      && (forall id :: id != t.id ==> Flag(r.sel.flags, id) == Flag(st.sel.flags, id))
      && (st.anchor.Some? ==> r.anchor == st.anchor)
      && (st.anchor.None? ==> r.anchor == Some(t.id))
      && (!was ==> r.sel.list == st.sel.list + [PayloadOf(t)])
      && (was ==> multiset(r.sel.list) == multiset(st.sel.list) - multiset{PayloadOf(t)})
  {
  }

  lemma RemoveAppended(l: seq<Payload>, p: Payload)
    requires p !in l
    ensures Remove(l + [p], p) == l
  {
    var i := IndexOf(l + [p], p);
    assert forall k :: 0 <= k < |l| ==> (l + [p])[k] == l[k];
    assert i == |l|;
    assert (l + [p])[..|l|] == l;
  }

  /**
   * Ctrl-click twice on the same container: every flag is as before, the
   * anchor is where the first click left it, and the list holds the same
   * payloads; starting from an unselected container whose payload is not
   * listed (always so while the list is in step) it is the very same list.
   */
  lemma ToggleTwice(st: SelectState, t: Item)
    requires Flag(st.sel.flags, t.id) ==> PayloadOf(t) in st.sel.list
    ensures var st2 := Toggle(Toggle(st, t), t);
      && (forall id :: Flag(st2.sel.flags, id) == Flag(st.sel.flags, id))
      && st2.anchor == Toggle(st, t).anchor
      && multiset(st2.sel.list) == multiset(st.sel.list)
      && (!Flag(st.sel.flags, t.id) && PayloadOf(t) !in st.sel.list ==> st2.sel.list == st.sel.list)
  {
    var p, l := PayloadOf(t), st.sel.list;
    var f := Flag(st.sel.flags, t.id);
    FlipBack(st.sel, t);
    assert Toggle(Toggle(st, t), t).sel == SetFlag(SetFlag(st.sel, t, !f), t, f);
    if f {
      assert multiset(Remove(l, p) + [p]) == multiset(l);
    } else if p !in l {
      RemoveAppended(l, p);
    }
  }

  /** Writing a container's flag to its opposite and back: the flags are restored and the list is rearranged as follows. */
  lemma FlipBack(s: Selection, t: Item)
    ensures var f := Flag(s.flags, t.id);
      var s2 := SetFlag(SetFlag(s, t, !f), t, f);
      && (forall id :: Flag(s2.flags, id) == Flag(s.flags, id))
      && (f ==> s2.list == Remove(s.list, PayloadOf(t)) + [PayloadOf(t)])
      && (!f ==> s2.list == Remove(s.list + [PayloadOf(t)], PayloadOf(t)))
  {
    var f := Flag(s.flags, t.id);
    var s1 := SetFlag(s, t, !f);
    assert Flag(s1.flags, t.id) != f;
  }

  /** The walked containers between the anchor and the target, both ends included, end up selected and no other walked one. */
  lemma RangeSelectBetween(st: SelectState, items: seq<Item>, target: Item, i: nat, j: nat)
    requires DistinctIds(items) && i < |items| && j < |items| && i != j
    requires ResolvedAnchor(st, items) == Some(items[i].id) && items[j].id == target.id
    ensures var r := Range(st, items, target);
      var lo, hi := if i < j then i else j, if i < j then j else i;
      && r.anchor == Some(items[i].id)
      && (forall k :: 0 <= k < |items| ==> Flag(r.sel.flags, items[k].id) == (lo <= k <= hi))
      && (forall id :: id !in Ids(items) ==> Flag(r.sel.flags, id) == Flag(st.sel.flags, id))
  {
    RangeBetween(items, i, j);
    WriteAllFlags(st.sel, items, RangeMarks(items, items[i].id, target.id));
  }

  /**
   * When only one end of the range is walked (the anchor is the target itself,
   * or one of the two is not walked), the flip at that end is never undone:
   * that container and every one after it end up selected, the earlier ones
   * not.
   */
  lemma RangeSelectToEnd(st: SelectState, items: seq<Item>, target: Item, a: NodeId, j: nat)
    requires DistinctIds(items) && j < |items| && ResolvedAnchor(st, items) == Some(a)
    requires || (items[j].id == target.id && (a == target.id || a !in Ids(items)))
             || (items[j].id == a && target.id !in Ids(items))
    ensures var r := Range(st, items, target);
      && r.anchor == Some(a)
      && (forall k :: 0 <= k < |items| ==> Flag(r.sel.flags, items[k].id) == (j <= k))
      && (forall id :: id !in Ids(items) ==> Flag(r.sel.flags, id) == Flag(st.sel.flags, id))
  {
    forall k | 0 <= k < |items| && IsEdge(items[k], a, target.id)
      ensures k == j
    {
      assert Ids(items)[k] == items[k].id;
    }
    RangeOneEdge(items, a, target.id, j);
    WriteAllFlags(st.sel, items, RangeMarks(items, a, target.id));
  }

  /**
   * When neither the anchor nor the target is walked (a stale anchor and a
   * target that is not realised), the flag never flips: every walked container
   * ends up unselected and the rest keep their flags.
   */
  lemma RangeSelectNoEdge(st: SelectState, items: seq<Item>, target: Item, a: NodeId)
    requires DistinctIds(items) && ResolvedAnchor(st, items) == Some(a)
    requires a !in Ids(items) && target.id !in Ids(items)
    ensures var r := Range(st, items, target);
      && r.anchor == Some(a)
      && (forall k :: 0 <= k < |items| ==> !Flag(r.sel.flags, items[k].id))
      && (forall id :: id !in Ids(items) ==> Flag(r.sel.flags, id) == Flag(st.sel.flags, id))
  {
    forall k | 0 <= k < |items|
      ensures !IsEdge(items[k], a, target.id)
    {
      assert Ids(items)[k] == items[k].id;
    }
    RangeNoEdge(items, a, target.id);
    WriteAllFlags(st.sel, items, RangeMarks(items, a, target.id));
  }

  /**
   * Shift-click with no anchor: the anchor becomes the last selected walked
   * container, or the first walked one when none is selected; with nothing
   * walked the click changes nothing.
   */
  lemma RangeSelectAnchor(st: SelectState, items: seq<Item>, target: Item)
    requires st.anchor.None?
    ensures var r := Range(st, items, target);
      && (items == [] ==> r == st)
      && (items != [] && (forall k :: 0 <= k < |items| ==> !Flag(st.sel.flags, items[k].id)) ==> r.anchor == Some(items[0].id))
      && (forall k ::
            (0 <= k < |items| && Flag(st.sel.flags, items[k].id)
             && forall m :: k < m < |items| ==> !Flag(st.sel.flags, items[m].id))
            ==> r.anchor == Some(items[k].id))
  {
    DefaultAnchorChoice(items, st.sel.flags);
    if items != [] {
      assert Range(st, items, target).anchor == DefaultAnchor(items, st.sel.flags);
    }
  }

  /** The default anchor is the last flagged walked container, or the first walked one when none is flagged. */
  lemma DefaultAnchorChoice(items: seq<Item>, flags: map<NodeId, bool>)
    ensures items != [] && (forall k :: 0 <= k < |items| ==> !Flag(flags, items[k].id)) ==> DefaultAnchor(items, flags) == Some(items[0].id)
    ensures forall k ::
              (0 <= k < |items| && Flag(flags, items[k].id)
               && forall m :: k < m < |items| ==> !Flag(flags, items[m].id))
              ==> DefaultAnchor(items, flags) == Some(items[k].id)
  {
    var ls := LastSelected(items, flags);
    forall k | 0 <= k < |items| && Flag(flags, items[k].id) && forall m :: k < m < |items| ==> !Flag(flags, items[m].id)
      ensures DefaultAnchor(items, flags) == Some(items[k].id)
    {
      assert ls.Some?;
      assert ls.value == k;
    }
  }

  /** A second identical Shift-click changes nothing. */
  lemma RangeSelectIdempotent(st: SelectState, items: seq<Item>, target: Item)
    requires DistinctIds(items)
    ensures Range(Range(st, items, target), items, target) == Range(st, items, target)
  {
    var a := ResolvedAnchor(st, items);
    if a.Some? {
      var marks := RangeMarks(items, a.value, target.id);
      WriteAllFlags(st.sel, items, marks);
      WriteAllSettled(Range(st, items, target).sel, items, marks);
    }
  }

  /** Disconnected containers and Ctrl+Shift clicks are ignored. */
  lemma IgnoredIntents(st: SelectState, items: seq<Item>, target: Item, mods: Modifiers)
    requires Disconnected(target) || (mods.ctrl && mods.shift)
    ensures OnSelected(st, items, target, mods) == st
  {
  }

  /** The unselected event clears the flag only when neither Ctrl nor Shift is held. */
  lemma UnselectedGuard(st: SelectState, target: Item, mods: Modifiers)
    ensures var r := OnUnselected(st, target, mods);
      && r.anchor == st.anchor
      && (mods.ctrl || mods.shift ==> r == st)
      && (!mods.ctrl && !mods.shift ==> !Flag(r.sel.flags, target.id))
      && (forall id :: id != target.id ==> Flag(r.sel.flags, id) == Flag(st.sel.flags, id))
  {
  }

  /** Every selected event keeps the list mirroring the flags. */
  lemma OnSelectedSynced(u: set<Item>, st: SelectState, items: seq<Item>, target: Item, mods: Modifiers)
    requires WellFormed(u) && Synced(u, st.sel) && target in u
    requires forall k :: 0 <= k < |items| ==> items[k] in u
    ensures Synced(u, OnSelected(st, items, target, mods).sel)
  {
    if Disconnected(target) || (mods.ctrl && mods.shift) {
    } else if mods.ctrl {
      SetFlagSynced(u, st.sel, target, !Flag(st.sel.flags, target.id));
    } else if mods.shift {
      var a := ResolvedAnchor(st, items);
      if a.Some? {
        WriteAllSynced(u, st.sel, items, RangeMarks(items, a.value, target.id));
      }
    } else {
      WriteAllSynced(u, st.sel, items, SingleMarks(items, target));
    }
  }

  /** Every unselected event keeps the list mirroring the flags. */
  lemma OnUnselectedSynced(u: set<Item>, st: SelectState, target: Item, mods: Modifiers)
    requires WellFormed(u) && Synced(u, st.sel) && target in u
    ensures Synced(u, OnUnselected(st, target, mods).sel)
  {
    if !mods.ctrl && !mods.shift {
      SetFlagSynced(u, st.sel, target, false);
    }
  }
}
