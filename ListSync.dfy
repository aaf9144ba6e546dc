/**
 * The IsSelected flag of each container and the externally owned list of
 * selected values, and the rule that keeps them in step: writing a flag that
 * actually changes runs the change callback (OnSelectedChanged), which adds the
 * container's payload to the list when the flag became true and removes it
 * when the flag became false. Writing the value a flag already has does nothing.
 */
module ListSync {
  import opened Tree

  /** The flags, keyed by container, and the selected-items list. */
  datatype Selection = Selection(flags: map<NodeId, bool>, list: seq<Payload>)

  /** The attached IsSelected value; a container never written reads as the default, false. */
  function Flag(flags: map<NodeId, bool>, id: NodeId): bool
  {
    id in flags && flags[id]
  }

  predicate NoDup<T(==)>(s: seq<T>)
  {
    forall i, j :: 0 <= i < j < |s| ==> s[i] != s[j]
  }

  /** Position of the first occurrence of x. */
  function IndexOf<T(==)>(s: seq<T>, x: T): (i: nat)
    requires x in s
    ensures i < |s| && s[i] == x && x !in s[..i]
  {
    if s[0] == x then 0 else 1 + IndexOf(s[1..], x)
  }

  /** IList.Remove: drops the first element equal to x; leaves the list alone when there is none. */
  function Remove<T(==,!new)>(s: seq<T>, x: T): (r: seq<T>)
    ensures multiset(r) == multiset(s) - multiset{x}
    ensures x !in s ==> r == s
    ensures NoDup(s) ==> NoDup(r) && forall y :: y in r <==> y in s && y != x
  {
    if x in s then
      var i := IndexOf(s, x);
      DropAt(s, i);
      s[..i] + s[i + 1..]
    else s
  }

  /** Cutting out position i removes one occurrence of s[i]; without duplicates, exactly s[i] goes. */
  lemma DropAt<T(!new)>(s: seq<T>, i: nat)
    requires i < |s|
    ensures multiset(s[..i] + s[i + 1..]) == multiset(s) - multiset{s[i]}
    ensures NoDup(s) ==> NoDup(s[..i] + s[i + 1..]) && forall y :: y in s[..i] + s[i + 1..] <==> y in s && y != s[i]
  {
    var r := s[..i] + s[i + 1..];
    assert s == s[..i] + [s[i]] + s[i + 1..];
    if NoDup(s) {
      DropNoDup(s, i);
      forall y ensures y in r <==> y in s && y != s[i] {
        assert y in r <==> y in multiset(r);
        assert y in s <==> y in multiset(s);
      }
    }
  }

  lemma DropNoDup<T>(s: seq<T>, i: nat)
    requires i < |s| && NoDup(s)
    ensures NoDup(s[..i] + s[i + 1..])
  {
    var r := s[..i] + s[i + 1..];
    forall a, b | 0 <= a < b < |r| ensures r[a] != r[b] {
      var a', b' := if a < i then a else a + 1, if b < i then b else b + 1;
      assert r[a] == s[a'] && r[b] == s[b'];
    }
  }

  /** The occurrence removed is the first one, and the other elements keep their order. */
  lemma RemoveFirst<T(!new)>(s: seq<T>, x: T)
    requires x in s
    ensures exists i :: 0 <= i < |s| && s[i] == x && x !in s[..i] && Remove(s, x) == s[..i] + s[i + 1..]
  {
    var i := IndexOf(s, x);
    assert 0 <= i < |s| && s[i] == x && x !in s[..i] && Remove(s, x) == s[..i] + s[i + 1..];
  }

  /** SetIsSelected followed, when the value changes, by the list update of the change callback. */
  function SetFlag(s: Selection, it: Item, v: bool): (r: Selection)
    ensures Flag(r.flags, it.id) == v
    ensures forall id :: id != it.id ==> Flag(r.flags, id) == Flag(s.flags, id)
    ensures Flag(s.flags, it.id) == v ==> r == s
    ensures Flag(s.flags, it.id) != v && v ==> r.list == s.list + [PayloadOf(it)]
    ensures Flag(s.flags, it.id) != v && !v ==> r.list == Remove(s.list, PayloadOf(it))
  {
    if Flag(s.flags, it.id) == v then s
    else Selection(s.flags[it.id := v], if v then s.list + [PayloadOf(it)] else Remove(s.list, PayloadOf(it)))
  }

  /** One SetIsSelected per item, in order: items[k] is given marks[k]. */
  function WriteAll(s: Selection, items: seq<Item>, marks: seq<bool>): Selection
    requires |items| == |marks|
    decreases |items|
  {
    if items == [] then s else WriteAll(SetFlag(s, items[0], marks[0]), items[1..], marks[1..])
  }

  /** One loop turn: the writes still to do from position i are the write at i and then the rest. */
  lemma WriteAllStep(s: Selection, items: seq<Item>, marks: seq<bool>, i: nat)
    requires |items| == |marks| && i < |items|
    ensures WriteAll(s, items[i..], marks[i..]) == WriteAll(SetFlag(s, items[i], marks[i]), items[i + 1..], marks[i + 1..])
  {
    assert items[i..][1..] == items[i + 1..] && marks[i..][1..] == marks[i + 1..];
  }

  /** Each written container ends with its mark; every other container keeps its flag. */
  lemma {:induction false} WriteAllFlags(s: Selection, items: seq<Item>, marks: seq<bool>)
    requires |items| == |marks| && DistinctIds(items)
    ensures forall k :: 0 <= k < |items| ==> Flag(WriteAll(s, items, marks).flags, items[k].id) == marks[k]
    ensures forall id :: id !in Ids(items) ==> Flag(WriteAll(s, items, marks).flags, id) == Flag(s.flags, id)
    decreases |items|
  {
    if items != [] {
      var s' := SetFlag(s, items[0], marks[0]);
      WriteAllFlags(s', items[1..], marks[1..]);
      var r := WriteAll(s, items, marks);
      assert r == WriteAll(s', items[1..], marks[1..]);
      forall k | 0 <= k < |items|
        ensures Flag(r.flags, items[k].id) == marks[k]
      {
        if k > 0 {
          assert items[1..][k - 1] == items[k];
        } else {
          assert items[0].id !in Ids(items[1..]) by {
            forall m | 0 <= m < |items[1..]| ensures Ids(items[1..])[m] != items[0].id {
              assert items[1..][m] == items[m + 1];
            }
          }
        }
      }
      forall id | id !in Ids(items)
        ensures Flag(r.flags, id) == Flag(s.flags, id)
      {
        assert Ids(items)[0] == items[0].id;
        assert id !in Ids(items[1..]) by {
          forall m | 0 <= m < |items[1..]| ensures Ids(items[1..])[m] != id {
            assert Ids(items)[m + 1] == items[m + 1].id && items[1..][m] == items[m + 1];
          }
        }
      }
    }
  }

  /** Writing every container the value it already holds changes nothing at all. */
  lemma {:induction false} WriteAllSettled(s: Selection, items: seq<Item>, marks: seq<bool>)
    requires |items| == |marks|
    requires forall k :: 0 <= k < |items| ==> Flag(s.flags, items[k].id) == marks[k]
    ensures WriteAll(s, items, marks) == s
    decreases |items|
  {
    if items != [] {
      assert SetFlag(s, items[0], marks[0]) == s;
      forall k | 0 <= k < |items[1..]|
        ensures Flag(s.flags, items[1..][k].id) == marks[1..][k]
      {
        assert items[1..][k] == items[k + 1];
      }
      WriteAllSettled(s, items[1..], marks[1..]);
    }
  }

  /**
   * The containers a session deals with: a container id determines the
   * container, and distinct containers have distinct payloads.
   */
  ghost predicate WellFormed(u: set<Item>)
  {
    forall a, b :: a in u && b in u && (a.id == b.id || PayloadOf(a) == PayloadOf(b)) ==> a == b
  }

  ghost function Payloads(u: set<Item>): set<Payload>
  {
    set it | it in u :: PayloadOf(it)
  }

  /**
   * The list mirrors the flags over the containers u: each payload appears at
   * most once, it appears exactly when its container is flagged, and nothing
   * else is in the list.
   */
  ghost predicate Synced(u: set<Item>, s: Selection)
  {
    && NoDup(s.list)
    && (forall it :: it in u ==> (Flag(s.flags, it.id) <==> PayloadOf(it) in s.list))
    && (forall p :: p in s.list ==> p in Payloads(u))
  }

  lemma SetFlagSynced(u: set<Item>, s: Selection, it: Item, v: bool)
    requires WellFormed(u) && Synced(u, s) && it in u
    ensures Synced(u, SetFlag(s, it, v))
  {
    var r := SetFlag(s, it, v);
    var p := PayloadOf(it);
    if Flag(s.flags, it.id) != v {
      forall b | b in u
        ensures Flag(r.flags, b.id) <==> PayloadOf(b) in r.list
      {
        if b != it {
          assert b.id != it.id && PayloadOf(b) != p;
        }
      }
      if v {
        assert p !in s.list;
        forall i, j | 0 <= i < j < |r.list| ensures r.list[i] != r.list[j] {
          if j == |s.list| {
            assert r.list[j] == p && r.list[i] == s.list[i];
          }
        }
        assert p in Payloads(u);
      }
    }
  }

  /** Any run of writes over containers of u keeps the list in step with the flags. */
  lemma {:induction false} WriteAllSynced(u: set<Item>, s: Selection, items: seq<Item>, marks: seq<bool>)
    requires |items| == |marks| && WellFormed(u) && Synced(u, s)
    requires forall k :: 0 <= k < |items| ==> items[k] in u
    ensures Synced(u, WriteAll(s, items, marks))
    decreases |items|
  {
    if items != [] {
      SetFlagSynced(u, s, items[0], marks[0]);
      forall k | 0 <= k < |items[1..]| ensures items[1..][k] in u {
        assert items[1..][k] == items[k + 1];
      }
      WriteAllSynced(u, SetFlag(s, items[0], marks[0]), items[1..], marks[1..]);
    }
  }
}
