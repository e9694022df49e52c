/**
 The array heap with an id-to-position index that both the timer heap (smallest deadline first)
 and the heartbeat counter heap (largest count first) are built on.
 */
module IndexedHeaps {
  type Id = nat

  datatype Entry = Entry(id: Id, key: int)

  /** The two comparators: the counter's is inverted. */
  datatype Order = SmallestFirst | LargestFirst

  predicate Before(o: Order, a: Entry, b: Entry)
  {
    if o.SmallestFirst? then a.key < b.key else a.key > b.key
  }

  function Father(i: nat): nat
    requires i > 0
  {
    (i - 1) / 2
  }

  ghost predicate EdgeOk(o: Order, h: seq<Entry>, c: nat)
    requires 0 < c < |h|
  {
    !Before(o, h[c], h[Father(c)])
  }

  ghost predicate Ordered(o: Order, h: seq<Entry>)
  {
    forall c :: 0 < c < |h| ==> EdgeOk(o, h, c)
  }

  /** The children of i do not come before the father of i. */
  ghost predicate BypassOk(o: Order, h: seq<Entry>, i: nat)
  {
    forall c :: 0 < c < |h| && Father(c) == i && i > 0 ==> !Before(o, h[c], h[Father(i)])
  }

  /** Only the edges that touch position i may be wrong. */
  ghost predicate OrderedExcept(o: Order, h: seq<Entry>, i: nat)
  {
    && (forall c :: 0 < c < |h| && c != i && Father(c) != i ==> EdgeOk(o, h, c))
    && BypassOk(o, h, i)
  }

  /** Only the edges from position i down to its children may be wrong. */
  ghost predicate OrderedAbove(o: Order, h: seq<Entry>, i: nat)
  {
    && (forall c :: 0 < c < |h| && Father(c) != i ==> EdgeOk(o, h, c))
    && BypassOk(o, h, i)
  }

  /** The index is exactly the inverse of the array positions; hence ids are distinct. */
  ghost predicate Indexed(h: seq<Entry>, pos: map<Id, nat>)
  {
    && (forall i :: 0 <= i < |h| ==> h[i].id in pos && pos[h[i].id] == i)
    && (forall id :: id in pos ==> pos[id] < |h| && h[pos[id]].id == id)
  }

  /** The plain map a heap stands for. */
  ghost function KeyMap(h: seq<Entry>, pos: map<Id, nat>): map<Id, int>
    requires Indexed(h, pos)
  {
    map id | id in pos :: h[pos[id]].key
  }

  function Swapped(h: seq<Entry>, a: nat, b: nat): seq<Entry>
    requires a < |h| && b < |h|
  {
    h[a := h[b]][b := h[a]]
  }

  lemma SwapKeepsMap(h: seq<Entry>, pos: map<Id, nat>, a: nat, b: nat)
    requires a < |h| && b < |h| && Indexed(h, pos)
    ensures var h' := Swapped(h, a, b);
            var pos' := pos[h'[a].id := a][h'[b].id := b];
            Indexed(h', pos') && KeyMap(h', pos') == KeyMap(h, pos)
  {
  }

  /** Changing one key of a heap arbitrarily spoils at most the edges at that position. */
  lemma ChangeSpoilsOnePosition(o: Order, h: seq<Entry>, i: nat, e: Entry)
    requires i < |h| && Ordered(o, h)
    ensures OrderedExcept(o, h[i := e], i)
  {
    forall c | 0 < c < |h| && Father(c) == i && i > 0
      ensures !Before(o, h[i := e][c], h[i := e][Father(i)])
    {
      assert EdgeOk(o, h, c) && EdgeOk(o, h, i);
    }
    forall c | 0 < c < |h| && c != i && Father(c) != i
      ensures EdgeOk(o, h[i := e], c)
    {
      assert EdgeOk(o, h, c);
    }
  }

  lemma DropLastKeepsOrder(o: Order, h: seq<Entry>, i: nat)
    requires |h| > 0 && OrderedExcept(o, h, i)
    ensures OrderedExcept(o, h[..|h| - 1], i)
  {
  }

  /** One round of shift_up moves the spoilt position to the father. */
  lemma ShiftUpRound(o: Order, h: seq<Entry>, i: nat)
    requires 0 < i < |h| && OrderedExcept(o, h, i) && Before(o, h[i], h[Father(i)])
    ensures OrderedExcept(o, Swapped(h, i, Father(i)), Father(i))
  {
  }

  lemma ShiftUpStops(o: Order, h: seq<Entry>, i: nat)
    requires i < |h| && OrderedExcept(o, h, i)
    requires i > 0 ==> !Before(o, h[i], h[Father(i)])
    ensures OrderedAbove(o, h, i)
  {
  }

  /** One round of shift_down, towards the child cur that comes first, moves the spoilt position to cur. */
  lemma ShiftDownRound(o: Order, h: seq<Entry>, i: nat, cur: nat)
    requires i < cur < |h| && OrderedAbove(o, h, i)
    requires Father(cur) == i && Before(o, h[cur], h[i])
    requires forall c :: 0 < c < |h| && Father(c) == i ==> !Before(o, h[c], h[cur])
    ensures OrderedAbove(o, Swapped(h, cur, i), cur)
  {
  }

  lemma ShiftDownStops(o: Order, h: seq<Entry>, i: nat)
    requires OrderedAbove(o, h, i)
    requires forall c :: 0 < c < |h| && Father(c) == i ==> !Before(o, h[c], h[i])
    ensures Ordered(o, h)
  {
  }

  /** No entry comes before the front of an ordered heap: a true minimum deadline, or maximum count. */
  lemma {:induction false} FrontIsFirst(o: Order, h: seq<Entry>, i: nat)
    requires i < |h| && Ordered(o, h)
    ensures !Before(o, h[i], h[0])
  {
    if i > 0 {
      assert EdgeOk(o, h, i);
      FrontIsFirst(o, h, Father(i));
    }
  }

  /** The same, said of the plain map. */
  lemma FrontLeadsMap(o: Order, h: seq<Entry>, pos: map<Id, nat>)
    requires |h| > 0 && Ordered(o, h) && Indexed(h, pos)
    ensures var m := KeyMap(h, pos);
            h[0].id in m && m[h[0].id] == h[0].key
            && forall id :: id in m ==> if o.SmallestFirst? then h[0].key <= m[id] else h[0].key >= m[id]
  {
    forall id | id in pos
      ensures !Before(o, h[pos[id]], h[0])
    {
      FrontIsFirst(o, h, pos[id]);
    }
  }

  class IndexedHeap {
    const order: Order
    var heap: seq<Entry>
    var pos: map<Id, nat>

    ghost predicate Valid()
      reads this
    {
      Indexed(heap, pos) && Ordered(order, heap)
    }

    /** What callers rely on: the heap behaves as this plain map from ids to keys. */
    ghost function Contents(): map<Id, int>
      reads this
      requires Indexed(heap, pos)
    {
      KeyMap(heap, pos)
    }

    constructor (o: Order)
      ensures Valid() && order == o && Contents() == map[]
    {
      order, heap, pos := o, [], map[];
    }

    method SwapNode(a: nat, b: nat)
      requires a < |heap| && b < |heap| && Indexed(heap, pos)
      modifies this
      ensures heap == Swapped(old(heap), a, b)
      ensures Indexed(heap, pos) && Contents() == old(Contents())
    {
      SwapKeepsMap(heap, pos, a, b);
      heap := heap[a := heap[b]][b := heap[a]];
      pos := pos[heap[a].id := a];
      pos := pos[heap[b].id := b];
    }

    method ShiftUp(start: nat) returns (idx: nat)
      requires start < |heap| && Indexed(heap, pos) && OrderedExcept(order, heap, start)
      modifies this
      ensures idx < |heap| == old(|heap|) && OrderedAbove(order, heap, idx)
      ensures Indexed(heap, pos) && Contents() == old(Contents())
    {
      idx := start;
      while idx > 0
        invariant idx < |heap| == old(|heap|) && OrderedExcept(order, heap, idx)
        invariant Indexed(heap, pos) && Contents() == old(Contents())
      {
        var fa := (idx - 1) / 2;
        if Before(order, heap[idx], heap[fa]) {
          ShiftUpRound(order, heap, idx);
          SwapNode(idx, fa);
          idx := fa;
        } else {
          ShiftUpStops(order, heap, idx);
          return;
        }
      }
      ShiftUpStops(order, heap, idx);
    }

    /** The position among idx and its children whose entry comes first. */
    method Foremost(idx: nat) returns (cur: nat)
      requires idx < |heap|
      ensures cur < |heap|
      ensures cur == idx || (idx < cur && Father(cur) == idx && Before(order, heap[cur], heap[idx]))
      ensures forall c :: 0 < c < |heap| && Father(c) == idx ==> !Before(order, heap[c], heap[cur])
    {
      var n, lc, rc := |heap|, idx * 2 + 1, idx * 2 + 2;
      cur := idx;
      if lc < n && Before(order, heap[lc], heap[cur]) {
        cur := lc;
      }
      if rc < n && Before(order, heap[rc], heap[cur]) {
        cur := rc;
      }
      assert forall c :: 0 < c < n && Father(c) == idx ==> c == lc || c == rc;
    }

    method ShiftDown(start: nat) returns (idx: nat)
      requires start < |heap| && Indexed(heap, pos) && OrderedAbove(order, heap, start)
      modifies this
      ensures Valid() && |heap| == old(|heap|) && Contents() == old(Contents())
    {
      var n := |heap|;
      idx := start;
      while idx < n
        invariant idx < |heap| == n && OrderedAbove(order, heap, idx)
        invariant Indexed(heap, pos) && Contents() == old(Contents())
        decreases n - idx
      {
        var cur := Foremost(idx);
        if cur == idx {
          ShiftDownStops(order, heap, idx);
          return;
        }
        ShiftDownRound(order, heap, idx, cur);
        SwapNode(cur, idx);
        idx := cur;
      }
    }

    /** shift_down(shift_up(idx)): mends a heap in which one position was changed in any way. */
    method Restore(idx: nat)
      requires idx < |heap| && Indexed(heap, pos) && OrderedExcept(order, heap, idx)
      modifies this
      ensures Valid() && |heap| == old(|heap|) && Contents() == old(Contents())
    {
      var i := ShiftUp(idx);
      i := ShiftDown(i);
    }

    method SetKey(id: Id, key: int)
      requires Valid() && id in pos
      modifies this
      ensures Valid() && Contents() == old(Contents())[id := key]
    {
      var idx := pos[id];
      ChangeSpoilsOnePosition(order, heap, idx, heap[idx].(key := key));
      heap := heap[idx := heap[idx].(key := key)];
      assert Contents() == old(Contents())[id := key];
      Restore(idx);
    }

    /** push: a known id gets the new key, an unknown one is added. */
    method Push(id: Id, key: int)
      requires Valid()
      modifies this
      ensures Valid() && Contents() == old(Contents())[id := key]
    {
      if id in pos {
        SetKey(id, key);
      } else {
        var newIdx := |heap|;
        AppendSpoilsLast(order, heap, Entry(id, key));
        heap := heap + [Entry(id, key)];
        pos := pos[id := newIdx];
        assert Contents() == old(Contents())[id := key];
        Restore(newIdx);
      }
    }

    method Adjust(id: Id, key: int)
      requires Valid()
      modifies this
      ensures Valid()
      ensures Contents() == if id in old(Contents()) then old(Contents())[id := key] else old(Contents())
    {
      if id in pos {
        SetKey(id, key);
      }
    }

    method AddOne(id: Id)
      requires Valid()
      modifies this
      ensures Valid()
      ensures Contents() == if id in old(Contents()) then old(Contents())[id := old(Contents())[id] + 1] else old(Contents())
    {
      if id in pos {
        SetKey(id, heap[pos[id]].key + 1);
      }
    }

    /** m_map.erase of the last entry's id, then m_heap.pop_back. */
    method DropLast()
      requires Indexed(heap, pos) && |heap| > 0
      modifies this
      ensures heap == old(heap)[..|old(heap)| - 1]
      ensures Indexed(heap, pos) && Contents() == old(Contents()) - {old(heap)[|old(heap)| - 1].id}
    {
      DropLastKeepsMap(heap, pos);
      pos := pos - {heap[|heap| - 1].id};
      heap := heap[..|heap| - 1];
    }

    method DeleteNode(idx: nat)
      requires Valid() && idx < |heap|
      modifies this
      ensures Valid() && Contents() == old(Contents()) - {old(heap[idx].id)}
      ensures |heap| == old(|heap|) - 1
    {
      var endIdx := |heap| - 1;
      if idx < endIdx {
        SwapThenDrop(order, heap, idx);
        SwapNode(idx, endIdx);
        DropLast();
        Restore(idx);
      } else {
        PrefixOrdered(order, heap);
        DropLast();
      }
    }

    /** pop: removes the front, which no other entry comes before. */
    method Pop()
      requires Valid()
      modifies this
      ensures Valid()
      ensures old(heap) == [] ==> Contents() == old(Contents())
      ensures old(heap) != [] ==> Contents() == old(Contents()) - {old(heap[0].id)} && |heap| < old(|heap|)
    {
      if |heap| > 0 {
        DeleteNode(0);
      }
    }

    method Del(id: Id)
      requires Valid()
      modifies this
      ensures Valid() && Contents() == old(Contents()) - {id}
    {
      if id in pos {
        DeleteNode(pos[id]);
      }
    }

    method Clear()
      modifies this
      ensures Valid() && Contents() == map[]
    {
      heap := [];
      pos := map[];
    }
  }

  lemma DropLastKeepsMap(h: seq<Entry>, pos: map<Id, nat>)
    requires |h| > 0 && Indexed(h, pos)
    ensures var last := h[|h| - 1].id;
            Indexed(h[..|h| - 1], pos - {last})
            && KeyMap(h[..|h| - 1], pos - {last}) == KeyMap(h, pos) - {last}
  {
  }

  lemma PrefixOrdered(o: Order, h: seq<Entry>)
    requires |h| > 0 && Ordered(o, h)
    ensures Ordered(o, h[..|h| - 1])
  {
    var t := h[..|h| - 1];
    forall c | 0 < c < |t|
      ensures EdgeOk(o, t, c)
    {
      assert EdgeOk(o, h, c);
    }
  }

  lemma AppendSpoilsLast(o: Order, h: seq<Entry>, e: Entry)
    requires Ordered(o, h)
    ensures OrderedExcept(o, h + [e], |h|)
  {
    forall c | 0 < c < |h|
      ensures EdgeOk(o, h + [e], c)
    {
      assert EdgeOk(o, h, c);
    }
  }

  /** delete_node in the middle: the last entry moves into the hole and the array loses its last slot. */
  lemma SwapThenDrop(o: Order, h: seq<Entry>, i: nat)
    requires i < |h| - 1 && Ordered(o, h)
    ensures OrderedExcept(o, Swapped(h, i, |h| - 1)[..|h| - 1], i)
  {
    var changed := h[i := h[|h| - 1]];
    ChangeSpoilsOnePosition(o, h, i, h[|h| - 1]);
    DropLastKeepsOrder(o, changed, i);
    assert Swapped(h, i, |h| - 1)[..|h| - 1] == changed[..|h| - 1];
  }
}
