/**
 * HeapQueue (Server/Core/HeapQueue.cs): a binary min-heap of events on a list,
 * ordered by tick, with the sift-down / sift-up scheme of Python's heapq.
 * Heap order is kept apart from the class's state: an event's tick can be changed
 * from outside while it is queued, and Remove does not re-sift, so the model states
 * what each operation does to an ordered heap rather than assuming one.
 */
module HeapQueues {
  import opened Wrappers
  import opened SimEvents

  function Parent(i: nat): nat
    requires i > 0
  {
    (i - 1) / 2
  }

  /** Heap order: every parent's tick is at most its child's. */
  predicate Ordered(s: seq<Event>)
    reads s
  {
    forall i {:trigger Parent(i)} :: 0 < i < |s| ==> s[Parent(i)].tick <= s[i].tick
  }

  /**
   * The state inside SiftDown: order holds on every edge but the one above `pos`,
   * and the parent of `pos` is no later than the children of `pos`.
   */
  predicate OrderedExceptAbove(s: seq<Event>, pos: nat)
    reads s
    requires pos < |s|
  {
    (forall i {:trigger Parent(i)} :: 0 < i < |s| && i != pos ==> s[Parent(i)].tick <= s[i].tick)
    && (pos > 0 ==> forall i {:trigger Parent(i)} :: 0 < i < |s| && Parent(i) == pos ==> s[Parent(pos)].tick <= s[i].tick)
  }

  /**
   * The state inside SiftUp: `pos` is a hole; order holds on every edge not touching it,
   * and the parent of the hole is no later than the hole's children.
   */
  predicate OrderedAroundHole(s: seq<Event>, pos: nat)
    reads s
    requires pos < |s|
  {
    (forall i {:trigger Parent(i)} :: 0 < i < |s| && i != pos && Parent(i) != pos ==> s[Parent(i)].tick <= s[i].tick)
    && (pos > 0 ==> forall i {:trigger Parent(i)} :: 0 < i < |s| && Parent(i) == pos ==> s[Parent(pos)].tick <= s[i].tick)
  }

  /** List.Remove: drop the first element that is the same object, if any. */
  function RemoveFirst(s: seq<Event>, x: Event): (r: seq<Event>)
    ensures x in s ==> |r| == |s| - 1 && multiset(r) == multiset(s) - multiset{x}
    ensures x !in s ==> r == s
  {
    if |s| == 0 then s
    else
      assert s == [s[0]] + s[1..];
      if s[0] == x then s[1..] else [s[0]] + RemoveFirst(s[1..], x)
  }

  /** The root of an ordered heap is no later than any element. */
  lemma {:induction false} RootIsMin(s: seq<Event>, i: nat)
    requires Ordered(s) && i < |s|
    ensures s[0].tick <= s[i].tick
    decreases i
  {
    if i > 0 {
      RootIsMin(s, Parent(i));
    }
  }

  /** Exchanging two positions keeps the multiset. */
  lemma SwapMultiset(v: seq<Event>, i: nat, j: nat)
    requires i < |v| && j < |v|
    ensures multiset(v[i := v[j]][j := v[i]]) == multiset(v)
  {
  }

  /** Moving the hole's neighbour into the hole and the saved item into the neighbour's place is a swap. */
  lemma HoleSwap(s: seq<Event>, pos: nat, c: nat, n: Event)
    requires pos < |s| && c < |s| && pos != c
    ensures multiset(s[pos := s[c]][c := n]) == multiset(s[pos := n])
  {
    var v := s[pos := n];
    SwapMultiset(v, pos, c);
    assert v[pos := v[c]][c := v[pos]] == s[pos := s[c]][c := n];
  }

  lemma SiftDownStep(s: seq<Event>, pos: nat, n: Event)
    requires 0 < pos < |s| && OrderedExceptAbove(s[pos := n], pos)
    requires n.tick < s[Parent(pos)].tick
    ensures OrderedExceptAbove(s[pos := s[Parent(pos)]][Parent(pos) := n], Parent(pos))
  {
    var v := s[pos := n];
    var p := Parent(pos);
    var w := s[pos := s[p]][p := n];
    forall i | 0 < i < |w| && i != p
      ensures w[Parent(i)].tick <= w[i].tick
    {
      if i == pos {
      } else if Parent(i) == pos {
        assert v[Parent(pos)].tick <= v[i].tick;
      } else if Parent(i) == p {
        assert v[p].tick <= v[i].tick;
      } else {
        assert v[Parent(i)].tick <= v[i].tick;
      }
    }
    if p > 0 {
      forall i | 0 < i < |w| && Parent(i) == p
        ensures w[Parent(p)].tick <= w[i].tick
      {
        assert v[Parent(p)].tick <= v[p].tick;
        if i != pos {
          assert v[p].tick <= v[i].tick;
        }
      }
    }
  }

  lemma SiftDownDone(v: seq<Event>, pos: nat)
    requires pos < |v| && OrderedExceptAbove(v, pos)
    requires pos == 0 || v[Parent(pos)].tick <= v[pos].tick
    ensures Ordered(v)
  {
  }

  lemma SiftUpStep(w: seq<Event>, pos: nat, c: nat)
    requires pos < |w| && OrderedAroundHole(w, pos)
    requires c < |w| && (c == 2 * pos + 1 || c == 2 * pos + 2)
    requires forall d :: (d == 2 * pos + 1 || d == 2 * pos + 2) && d < |w| ==> w[c].tick <= w[d].tick
    ensures OrderedAroundHole(w[pos := w[c]], c)
  {
    var u := w[pos := w[c]];
    assert Parent(c) == pos;
    forall i | 0 < i < |u| && i != c && Parent(i) != c
      ensures u[Parent(i)].tick <= u[i].tick
    {
      if i == pos {
      } else if Parent(i) == pos {
        assert i == 2 * pos + 1 || i == 2 * pos + 2;
      }
    }
  }

  lemma SiftUpDone(w: seq<Event>, pos: nat, n: Event)
    requires pos < |w| && OrderedAroundHole(w, pos) && 2 * pos + 1 >= |w|
    ensures OrderedExceptAbove(w[pos := n], pos)
  {
    var v := w[pos := n];
    forall i | 0 < i < |v| && i != pos
      ensures v[Parent(i)].tick <= v[i].tick
    {
      assert Parent(i) != pos;
    }
  }

  /** Removing the last element of an ordered heap and putting it at the root leaves a hole at 0. */
  lemma PopHole(s: seq<Event>)
    requires |s| >= 2 && Ordered(s)
    ensures OrderedAroundHole(s[..|s| - 1][0 := s[|s| - 1]], 0)
  {
  }

  /** Refilling the root with the last element: one copy of the root goes, and an ordered heap leaves a hole at 0. */
  lemma PopRefill(s: seq<Event>)
    requires |s| >= 2
    ensures multiset(s[..|s| - 1][0 := s[|s| - 1]]) + multiset{s[0]} == multiset(s)
    ensures Ordered(s) ==> OrderedAroundHole(s[..|s| - 1][0 := s[|s| - 1]], 0)
  {
    var rest := s[..|s| - 1];
    assert s == rest + [s[|s| - 1]];
    if Ordered(s) {
      PopHole(s);
    }
  }

  /** What is left after taking the root of an ordered heap is no earlier than the root. */
  lemma PopIsMin(s: seq<Event>, rest: seq<Event>)
    requires |s| > 0 && multiset(rest) <= multiset(s)
    ensures Ordered(s) ==> forall e :: e in rest ==> s[0].tick <= e.tick
  {
    if Ordered(s) {
      forall e | e in rest
        ensures s[0].tick <= e.tick
      {
        assert e in multiset(s);
        var i :| 0 <= i < |s| && s[i] == e;
        RootIsMin(s, i);
      }
    }
  }

  class HeapQueue {
    var items: seq<Event>

    constructor ()
      ensures items == []
    {
      items := [];
    }

    /** Count: the number of stored items. */
    function Count(): nat
      reads this
    {
      |items|
    }

    /** Peek: the first item, which on an ordered heap is no later than any item; None on an empty heap. */
    function Peek(): (r: Option<Event>)
      reads this, items
      ensures r.Some? <==> |items| > 0
      ensures r.Some? ==> r.value in items
      ensures r.Some? && Ordered(items) ==> forall e :: e in items ==> r.value.tick <= e.tick
    {
      if |items| == 0 then None
      else
        PeekIsMin(items);
        Some(items[0])
    }

    static lemma PeekIsMin(s: seq<Event>)
      requires |s| > 0
      ensures Ordered(s) ==> forall e :: e in s ==> s[0].tick <= e.tick
    {
      if Ordered(s) {
        forall e | e in s
          ensures s[0].tick <= e.tick
        {
          var i :| 0 <= i < |s| && s[i] == e;
          RootIsMin(s, i);
        }
      }
    }

    method Clear()
      modifies this
      ensures items == []
    {
      items := [];
    }

    /** Remove: the first occurrence of the same object goes; the rest keep their places (no re-sift). */
    method Remove(item: Event)
      modifies this
      ensures items == RemoveFirst(old(items), item)
    {
      items := RemoveFirst(items, item);
    }

    /** Push: the item is added, and an ordered heap stays ordered. */
    method Push(item: Event)
      modifies this
      ensures multiset(items) == multiset(old(items)) + multiset{item}
      ensures |items| == |old(items)| + 1
      ensures old(Ordered(items)) ==> Ordered(items)
    {
      ghost var wasOrdered := Ordered(items);
      items := items + [item];
      if wasOrdered {
        assert OrderedExceptAbove(items, |items| - 1);
      }
      SiftDown(0, |items| - 1);
    }

    /**
     * Pop: on a non-empty heap, the first item comes out and exactly one copy of it goes;
     * on an ordered heap it is no later than everything left, and the rest stay ordered.
     * An empty heap is the index-out-of-range error, here None.
     */
    method Pop() returns (r: Option<Event>)
      modifies this
      ensures old(|items|) == 0 ==> r == None && items == old(items)
      ensures old(|items|) > 0 ==> r == Some(old(items[0]))
      ensures old(|items|) > 0 ==> multiset(items) + multiset{r.value} == multiset(old(items))
      ensures old(|items|) > 0 ==> |items| == old(|items|) - 1
      ensures old(|items|) == 1 ==> items == []
      ensures old(Ordered(items)) ==> Ordered(items)
      ensures old(Ordered(items)) && r.Some? ==> forall e :: e in items ==> r.value.tick <= e.tick
    {
      if |items| == 0 {
        return None;
      }
      ghost var before := items;
      var last := items[|items| - 1];
      var rest := items[..|items| - 1];
      if |rest| > 0 {
        var item := rest[0];
        PopRefill(before);
        items := rest[0 := last];
        SiftUp();
        r := Some(item);
      } else {
        items := rest;
        r := Some(last);
      }
      PopIsMin(before, items);
    }

    /**
     * SiftDown (toward the root): the item at `pos` climbs while its parent is later.
     * The multiset is kept; from the SiftDown state with `startpos` 0 the heap ends ordered.
     * The list is worked on as a local value and stored back once.
     */
    method SiftDown(startpos: nat, pos: nat)
      requires startpos <= pos < |items|
      modifies this
      ensures multiset(items) == multiset(old(items)) && |items| == |old(items)|
      ensures startpos == 0 && old(OrderedExceptAbove(items, pos)) ==> Ordered(items)
    {
      var list := items;
      ghost var original := items;
      ghost var track := startpos == 0 && OrderedExceptAbove(list, pos);
      var pos := pos;
      var newitem := list[pos];
      assert list[pos := newitem] == list;
      while pos > startpos
        invariant pos < |list| == |original|
        invariant multiset(list[pos := newitem]) == multiset(original)
        invariant track ==> startpos == 0 && OrderedExceptAbove(list[pos := newitem], pos)
        decreases pos
      {
        var parentpos := Parent(pos);
        var parent := list[parentpos];
        if parent.tick <= newitem.tick {
          break;
        }
        if track {
          SiftDownStep(list, pos, newitem);
        }
        HoleSwap(list, pos, parentpos, newitem);
        list := list[pos := parent];
        pos := parentpos;
      }
      items := list[pos := newitem];
      if track {
        SiftDownDone(items, pos);
      }
    }

    /**
     * SiftUp (toward the leaves): the hole at the root descends along the earlier child
     * (the right one on ties) to a leaf, where the saved item is put and sifted back down.
     */
    method SiftUp()
      requires |items| > 0
      modifies this
      ensures multiset(items) == multiset(old(items)) && |items| == |old(items)|
      ensures old(OrderedAroundHole(items, 0)) ==> Ordered(items)
    {
      var list := items;
      ghost var original := items;
      ghost var track := OrderedAroundHole(list, 0);
      var endpos := |list|;
      var startpos := 0;
      var newitem := list[0];
      var childpos := 1;
      var pos := 0;
      assert list[pos := newitem] == list;
      while childpos < endpos
        invariant |list| == endpos == |original|
        invariant pos < endpos && childpos == 2 * pos + 1
        invariant multiset(list[pos := newitem]) == multiset(original)
        invariant track ==> OrderedAroundHole(list, pos)
        decreases endpos - pos
      {
        var rightpos := childpos + 1;
        if rightpos < endpos && list[rightpos].tick <= list[childpos].tick {
          childpos := rightpos;
        }
        if track {
          SiftUpStep(list, pos, childpos);
        }
        HoleSwap(list, pos, childpos, newitem);
        list := list[pos := list[childpos]];
        pos := childpos;
        childpos := 2 * pos + 1;
      }
      items := list[pos := newitem];
      if track {
        SiftUpDone(list, pos, newitem);
      }
      SiftDown(startpos, pos);
    }
  }

  /**
   * Remove can break heap order: removing the root of the ordered heap [1, 5, 2, 6]
   * leaves [5, 2, 6], whose root is later than its child.
   */
  lemma RemoveBreaksOrder(a: Event, b: Event, c: Event, d: Event)
    requires a.tick == 1 && b.tick == 5 && c.tick == 2 && d.tick == 6
    ensures Ordered([a, b, c, d])
    ensures !Ordered(RemoveFirst([a, b, c, d], a))
  {
    assert RemoveFirst([a, b, c, d], a) == [b, c, d];
    assert Parent(1) == 0;
  }
}
