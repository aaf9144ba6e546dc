/**
 * The tree of item containers behind a tree view, and the pre-order walk over
 * the containers that are realised (GetExpandedTreeViewItems).
 *
 * A container is identified by a node id (the source compares containers by
 * reference). Each child slot of a container is either realised (its item
 * container exists) or not; a slot that is not realised hides its whole subtree
 * from the walk, since the walk can only descend through existing containers.
 */
module Tree {
  import opened Wrappers

  type NodeId = nat

  /** A view-model object: its identity, and what its ToString() returns. */
  datatype Context = Context(obj: nat, text: string)

  /** A tree view item container: its identity and its optional DataContext. */
  datatype Item = Item(id: NodeId, context: Option<Context>)

  /**
   * A value held in the selected-items list: `DataContext ?? item`. Both are
   * compared by identity, so a data context is represented by its object only.
   */
  datatype Payload = Data(obj: nat) | Container(id: NodeId)

  datatype Node = Node(item: Item, children: seq<Slot>)

  /** A child position of a container; `realised` is false when no container was generated for it. */
  datatype Slot = Slot(realised: bool, node: Node)

  /** What a selection change adds to or removes from the selected-items list. */
  function PayloadOf(it: Item): Payload
  {
    if it.context.Some? then Data(it.context.value.obj) else Container(it.id)
  }

  /** The placeholder data context of a container that is being removed. */
  predicate Disconnected(it: Item)
  {
    it.context.Some? && it.context.value.text == "{DisconnectedItem}"
  }

  /** The walk: each realised item, then the walk of its children, siblings in index order. */
  function Expanded(slots: seq<Slot>): seq<Item>
    decreases slots
  {
    if slots == [] then [] else SlotWalk(slots[0]) + Expanded(slots[1..])
  }

  /** One loop turn of the walk: the slot's item and its subtree, or nothing when the slot is not realised. */
  function SlotWalk(s: Slot): seq<Item>
    decreases s
  {
    if s.realised then [s.node.item] + Expanded(s.node.children) else []
  }

  function Ids(items: seq<Item>): seq<NodeId>
  {
    seq(|items|, k requires 0 <= k < |items| => items[k].id)
  }

  predicate DistinctIds(items: seq<Item>)
  {
    forall i, j :: 0 <= i < j < |items| ==> items[i].id != items[j].id
  }

  /** The ids of every node of the forest, realised or not. */
  function AllIds(slots: seq<Slot>): multiset<NodeId>
    decreases slots
  {
    if slots == [] then multiset{} else SlotIds(slots[0]) + AllIds(slots[1..])
  }

  function SlotIds(s: Slot): multiset<NodeId>
    decreases s
  {
    multiset{s.node.item.id} + AllIds(s.node.children)
  }

  /** The ids of the nodes that lie at or under a slot that is not realised. */
  function HiddenIds(slots: seq<Slot>): multiset<NodeId>
    decreases slots
  {
    if slots == [] then multiset{} else SlotHidden(slots[0]) + HiddenIds(slots[1..])
  }

  function SlotHidden(s: Slot): multiset<NodeId>
    decreases s
  {
    if s.realised then HiddenIds(s.node.children) else SlotIds(s)
  }

  /** Every container is a distinct object. */
  ghost predicate UniqueIds(slots: seq<Slot>)
  {
    forall id :: AllIds(slots)[id] <= 1
  }

  lemma IdsAppend(a: seq<Item>, b: seq<Item>)
    ensures Ids(a + b) == Ids(a) + Ids(b)
  {
  }

  /** The walk distributes over a split of the sibling list. */
  lemma {:induction false} ExpandedAppend(a: seq<Slot>, b: seq<Slot>)
    ensures Expanded(a + b) == Expanded(a) + Expanded(b)
    decreases a
  {
    if a == [] {
      assert a + b == b;
    } else {
      assert (a + b)[0] == a[0];
      assert (a + b)[1..] == a[1..] + b;
      ExpandedAppend(a[1..], b);
    }
  }

  /**
   * Pre-order: a realised child comes after everything its earlier siblings
   * contribute, is followed at once by the walk of its own children, and then
   * by what its later siblings contribute.
   */
  lemma PreOrder(slots: seq<Slot>, i: nat)
    requires i < |slots| && slots[i].realised
    ensures Expanded(slots) ==
      Expanded(slots[..i]) + [slots[i].node.item] + Expanded(slots[i].node.children) + Expanded(slots[i + 1..])
  {
    var before, after := slots[..i], slots[i + 1..];
    var rest := [slots[i]] + after;
    assert slots == before + rest;
    ExpandedAppend(before, rest);
    assert rest[0] == slots[i] && rest[1..] == after;
    assert Expanded(rest) == SlotWalk(slots[i]) + Expanded(after);
  }

  /** Every node is either visited by the walk or hidden under an unrealised slot, never both. */
  lemma {:induction false} Partition(slots: seq<Slot>)
    ensures multiset(Ids(Expanded(slots))) + HiddenIds(slots) == AllIds(slots)
    decreases slots
  {
    if slots != [] {
      SlotPartition(slots[0]);
      Partition(slots[1..]);
      IdsAppend(SlotWalk(slots[0]), Expanded(slots[1..]));
    }
  }

  lemma {:induction false} SlotPartition(s: Slot)
    ensures multiset(Ids(SlotWalk(s))) + SlotHidden(s) == SlotIds(s)
    decreases s
  {
    Partition(s.node.children);
    if s.realised {
      IdsAppend([s.node.item], Expanded(s.node.children));
      assert Ids([s.node.item]) == [s.node.item.id];
    } else {
      assert Ids(SlotWalk(s)) == [];
    }
  }

  /** A value occurring at most once in a sequence sits at one index only. */
  lemma CountOnce(s: seq<NodeId>, i: nat, j: nat)
    requires i < j < |s| && multiset(s)[s[i]] <= 1
    ensures s[i] != s[j]
  {
    assert s == s[..i] + [s[i]] + s[i + 1..j] + [s[j]] + s[j + 1..];
  }

  /** With distinct containers the walk visits each realised container exactly once. */
  lemma ExpandedDistinct(slots: seq<Slot>)
    requires UniqueIds(slots)
    ensures DistinctIds(Expanded(slots))
  {
    var items := Expanded(slots);
    Partition(slots);
    forall i, j | 0 <= i < j < |items|
      ensures items[i].id != items[j].id
    {
      assert Ids(items)[i] == items[i].id && Ids(items)[j] == items[j].id;
      assert AllIds(slots)[items[i].id] <= 1;
      CountOnce(Ids(items), i, j);
    }
  }

  /** A node under an unrealised slot is never visited. */
  lemma HiddenSkipped(slots: seq<Slot>, id: NodeId)
    requires UniqueIds(slots) && id in HiddenIds(slots)
    ensures id !in Ids(Expanded(slots))
  {
    Partition(slots);
    assert AllIds(slots)[id] <= 1;
  }
}
