/**
 * A worked example: two folders, three leaves, every container realised.
 * A plain click, a Shift-click and a Ctrl-click, followed through the flags,
 * the selected-items list and the anchor.
 */
module Scenarios {
  import opened Wrappers
  import opened Tree
  import opened ListSync
  import opened Intents

  const FolderA := Item(1, Some(Context(1, "FolderA")))
  const Leaf1 := Item(2, Some(Context(2, "Leaf1")))
  const Leaf2 := Item(3, Some(Context(3, "Leaf2")))
  const FolderB := Item(4, Some(Context(4, "FolderB")))
  const Leaf3 := Item(5, None)

  function Sample(): seq<Slot>
  {
    [ Slot(true, Node(FolderA, [Slot(true, Node(Leaf1, [])), Slot(true, Node(Leaf2, []))])),
      Slot(true, Node(FolderB, [Slot(true, Node(Leaf3, []))])) ]
  }

  /** The walk of the sample tree, every container realised. */
  const Walk := [FolderA, Leaf1, Leaf2, FolderB, Leaf3]

  lemma SampleWalk()
    ensures Expanded(Sample()) == Walk
  {
    var t := Sample();
    var a, b := t[0].node.children, t[1].node.children;
    assert Expanded([]) == [];
    assert SlotWalk(a[0]) == [Leaf1] && SlotWalk(a[1]) == [Leaf2] && SlotWalk(b[0]) == [Leaf3];
    assert a[1..][1..] == [] && b[1..] == [] && t[1..][1..] == [];
    assert Expanded(a[1..]) == [Leaf2];
    assert Expanded(a) == [Leaf1, Leaf2];
    assert Expanded(b) == [Leaf3];
    assert SlotWalk(t[0]) == [FolderA, Leaf1, Leaf2];
    assert Expanded(t[1..]) == [FolderB, Leaf3];
  }

  /** A plain click on Leaf1 with nothing selected: only Leaf1 is flagged and listed, and it is the anchor. */
  lemma ClickLeaf1()
    ensures Single(SelectState(Selection(map[], []), None), Walk, Leaf1)
         == SelectState(Selection(map[2 := true], [Data(2)]), Some(2))
  {
    var m := SingleMarks(Walk, Leaf1);
    assert m == [false, true, false, false, false];
    var s := Selection(map[], []);
    var t := Selection(map[2 := true], [Data(2)]);
    assert WriteAll(t, [Leaf3], [false]) == t;
    assert WriteAll(t, [FolderB, Leaf3], [false, false]) == t;
    assert WriteAll(t, [Leaf2, FolderB, Leaf3], [false, false, false]) == t;
    assert SetFlag(s, Leaf1, true) == t;
    assert [Leaf1, Leaf2, FolderB, Leaf3][1..] == [Leaf2, FolderB, Leaf3];
    assert [true, false, false, false][1..] == [false, false, false];
    assert WriteAll(s, [Leaf1, Leaf2, FolderB, Leaf3], [true, false, false, false]) == t;
    assert WriteAll(s, Walk, m) == t;
  }

  /** The range loop from Leaf1 to Leaf3 marks Leaf1 and everything after it. */
  lemma RangeLeaf1Leaf3()
    ensures RangeMarks(Walk, 2, 5) == [false, true, true, true, true]
  {
    assert DistinctIds(Walk);
    RangeBetween(Walk, 1, 4);
    assert Walk[1].id == 2 && Walk[4].id == 5;
    var m := RangeMarks(Walk, Walk[1].id, Walk[4].id);
    assert m[0] == false && m[1] == true && m[2] == true && m[3] == true && m[4] == true;
  }

  /** The writes of that range loop, one container at a time: Leaf2, FolderB and Leaf3 are appended in walk order. */
  lemma RangeWrites()
    ensures WriteAll(Selection(map[2 := true], [Data(2)]), Walk, [false, true, true, true, true])
         == Selection(map[2 := true, 3 := true, 4 := true, 5 := true], [Data(2), Data(3), Data(4), Container(5)])
  {
    var s1 := Selection(map[2 := true], [Data(2)]);
    var s3 := Selection(map[2 := true, 3 := true], [Data(2), Data(3)]);
    var s4 := Selection(map[2 := true, 3 := true, 4 := true], [Data(2), Data(3), Data(4)]);
    var s5 := Selection(map[2 := true, 3 := true, 4 := true, 5 := true], [Data(2), Data(3), Data(4), Container(5)]);
    assert SetFlag(s4, Leaf3, true) == s5;
    assert WriteAll(s5, [], []) == s5;
    assert [Leaf3][1..] == [] && [true][1..] == [];
    assert WriteAll(s4, [Leaf3], [true]) == s5;
    assert SetFlag(s3, FolderB, true) == s4;
    assert [FolderB, Leaf3][1..] == [Leaf3] && [true, true][1..] == [true];
    assert WriteAll(s3, [FolderB, Leaf3], [true, true]) == s5;
    assert SetFlag(s1, Leaf2, true) == s3;
    assert [Leaf2, FolderB, Leaf3][1..] == [FolderB, Leaf3];
    assert [true, true, true][1..] == [true, true];
    assert WriteAll(s1, [Leaf2, FolderB, Leaf3], [true, true, true]) == s5;
    assert SetFlag(s1, Leaf1, true) == s1;
    assert [Leaf1, Leaf2, FolderB, Leaf3][1..] == [Leaf2, FolderB, Leaf3];
    assert [true, true, true, true][1..] == [true, true, true];
    assert WriteAll(s1, [Leaf1, Leaf2, FolderB, Leaf3], [true, true, true, true]) == s5;
    assert SetFlag(s1, FolderA, false) == s1;
    assert Walk[1..] == [Leaf1, Leaf2, FolderB, Leaf3];
    assert [false, true, true, true, true][1..] == [true, true, true, true];
  }

  /** Then a Shift-click on Leaf3: the range from the anchor Leaf1 down to Leaf3 is added, in walk order. */
  lemma ShiftClickLeaf3()
    ensures Range(SelectState(Selection(map[2 := true], [Data(2)]), Some(2)), Walk, Leaf3)
         == SelectState(Selection(map[2 := true, 3 := true, 4 := true, 5 := true], [Data(2), Data(3), Data(4), Container(5)]), Some(2))
  {
    RangeLeaf1Leaf3();
    RangeWrites();
  }

  /** Then a Ctrl-click on FolderA: it is appended after the range, and the anchor stays on Leaf1. */
  lemma CtrlClickFolderA()
    ensures Toggle(SelectState(Selection(map[2 := true, 3 := true, 4 := true, 5 := true], [Data(2), Data(3), Data(4), Container(5)]), Some(2)), FolderA)
         == SelectState(Selection(map[2 := true, 3 := true, 4 := true, 5 := true, 1 := true], [Data(2), Data(3), Data(4), Container(5), Data(1)]), Some(2))
  {
    assert !Flag(map[2 := true, 3 := true, 4 := true, 5 := true], 1);
  }

  /** Click Leaf1, Shift-click Leaf3, Ctrl-click FolderA. */
  lemma ClickShiftCtrl()
    ensures var items := Expanded(Sample());
      var s0 := SelectState(Selection(map[], []), None);
      var s1 := OnSelected(s0, items, Leaf1, Modifiers(false, false));
      var s2 := OnSelected(s1, items, Leaf3, Modifiers(false, true));
      var s3 := OnSelected(s2, items, FolderA, Modifiers(true, false));
      && s1.sel.list == [PayloadOf(Leaf1)]
      && s2.sel.list == [PayloadOf(Leaf1), PayloadOf(Leaf2), PayloadOf(FolderB), Container(5)]
      && s3.sel.list == s2.sel.list + [PayloadOf(FolderA)]
      && s3.anchor == Some(Leaf1.id)
  {
    SampleWalk();
    var s0 := SelectState(Selection(map[], []), None);
    var s1 := OnSelected(s0, Walk, Leaf1, Modifiers(false, false));
    ClickLeaf1();
    assert s1 == SelectState(Selection(map[2 := true], [Data(2)]), Some(2));
    var s2 := OnSelected(s1, Walk, Leaf3, Modifiers(false, true));
    ShiftClickLeaf3();
    assert s2.sel.list == [Data(2), Data(3), Data(4), Container(5)];
    CtrlClickFolderA();
  }
}
