/** The binary min-heap of pending deliveries, ordered by DeliveryCompare: the element at
    index 0 is one that no other queued element precedes. */
module PriorityQueues {
  import opened Types
  import opened DeliveryOrder

  function Parent(i: nat): nat
    requires i > 0
  {
    (i - 1) / 2
  }

  /** Heap order: no element precedes its parent. */
  ghost predicate HeapOrdered(h: seq<Delivery>)
  {
    forall i :: 0 < i < |h| ==> !Before(h[i], h[Parent(i)])
  }

  /** Heap order everywhere except on the edge above `k`; the parent of `k` is also
      no later than `k`'s children (the state while sifting up). */
  ghost predicate OrderedAboveExcept(h: seq<Delivery>, k: nat)
  {
    && (forall i :: 0 < i < |h| && i != k ==> !Before(h[i], h[Parent(i)]))
    && (forall i :: 0 < i < |h| && k > 0 && Parent(i) == k ==> !Before(h[i], h[Parent(k)]))
  }

  /** Heap order everywhere except on the edges below `k`; `k`'s parent is no later than
      `k`'s children (the state while sifting down). */
  ghost predicate OrderedBelowExcept(h: seq<Delivery>, k: nat)
  {
    && (forall i :: 0 < i < |h| && Parent(i) != k ==> !Before(h[i], h[Parent(i)]))
    && (forall i :: 0 < i < |h| && k > 0 && Parent(i) == k ==> !Before(h[i], h[Parent(k)]))
  }

  /** In a heap no element precedes the root. */
  lemma {:induction false} RootIsFirst(h: seq<Delivery>, i: nat)
    requires HeapOrdered(h) && i < |h|
    ensures !Before(h[i], h[0])
    decreases i
  {
    if i > 0 {
      RootIsFirst(h, Parent(i));
      BeforeIsStrictWeakOrder(h[i], h[Parent(i)], h[0]);
    }
  }

  /** Swapping `k` with the parent it precedes moves the exception one level up. */
  lemma SiftUpStep(h: seq<Delivery>, k: nat)
    requires 0 < k < |h| && OrderedAboveExcept(h, k) && Before(h[k], h[Parent(k)])
    ensures OrderedAboveExcept(h[k := h[Parent(k)]][Parent(k) := h[k]], Parent(k))
  {
    var p := Parent(k);
    var h' := h[k := h[p]][p := h[k]];
    forall i | 0 < i < |h'| && i != p ensures !Before(h'[i], h'[Parent(i)]) {
      if i != k && Parent(i) == p {
        BeforeIsStrictWeakOrder(h[i], h[p], h[k]);
      }
    }
    forall i | 0 < i < |h'| && p > 0 && Parent(i) == p ensures !Before(h'[i], h'[Parent(p)]) {
      BeforeIsStrictWeakOrder(h[p], h[Parent(p)], h[k]);
      if i != k {
        BeforeIsStrictWeakOrder(h[i], h[p], h[Parent(p)]);
      }
    }
  }

  /** Swapping `k` with its earliest child `s` moves the exception down to `s`. */
  lemma SiftDownStep(h: seq<Delivery>, k: nat, s: nat)
    requires (s == 2 * k + 1 || s == 2 * k + 2) && s < |h| && OrderedBelowExcept(h, k)
    requires Before(h[s], h[k])
    requires 2 * k + 1 < |h| ==> !Before(h[2 * k + 1], h[s])
    requires 2 * k + 2 < |h| ==> !Before(h[2 * k + 2], h[s])
    ensures OrderedBelowExcept(h[k := h[s]][s := h[k]], s)
  {
    var h' := h[k := h[s]][s := h[k]];
    ChildOf(k, s);
    forall i | 0 < i < |h'| && Parent(i) != s ensures !Before(h'[i], h'[Parent(i)]) {
      ChildOf(k, i);
      if i == k {
        BeforeIsStrictWeakOrder(h[s], h[k], h[Parent(k)]);
      }
    }
    forall i | 0 < i < |h'| && Parent(i) == s ensures !Before(h'[i], h'[Parent(s)]) {
      ChildOf(k, i);
      ChildOf(s, i);
    }
  }

  /** The children of `k` are `2k+1` and `2k+2`. */
  lemma ChildOf(k: nat, i: nat)
    ensures i > 0 && Parent(i) == k <==> i == 2 * k + 1 || i == 2 * k + 2
  {
  }

  /** Once no child of `k` precedes it, the heap is in order. */
  lemma SiftDownDone(h: seq<Delivery>, k: nat)
    requires k < |h| && OrderedBelowExcept(h, k)
    requires 2 * k + 1 < |h| ==> !Before(h[2 * k + 1], h[k])
    requires 2 * k + 2 < |h| ==> !Before(h[2 * k + 2], h[k])
    ensures HeapOrdered(h)
  {
    forall i | 0 < i < |h| ensures !Before(h[i], h[Parent(i)]) {
      ChildOf(k, i);
    }
  }

  /** Dropping the last element and moving it to the front keeps every other element. */
  lemma MoveLastToFront(h: seq<Delivery>)
    requires |h| > 0
    ensures multiset(h[0 := h[|h| - 1]][..|h| - 1]) + multiset{h[0]} == multiset(h)
  {
    var n := |h|;
    if n == 1 {
      assert h[0 := h[0]][..0] == [];
      assert h == [h[0]];
    } else {
      var h' := h[0 := h[n - 1]][..n - 1];
      assert h' == [h[n - 1]] + h[1..n - 1];
      assert h == [h[0]] + h[1..n - 1] + [h[n - 1]];
    }
  }

  class PriorityQueue {
    var heap: seq<Delivery>

    ghost predicate Valid()
      reads this
    {
      HeapOrdered(heap)
    }

    constructor ()
      ensures Valid() && heap == []
    {
      heap := [];
    }

    /** Moves the element at `idx` up, swapping it with its parent while it precedes it. */
    method HeapifyUp(idx: nat)
      requires idx < |heap| && OrderedAboveExcept(heap, idx)
      modifies this
      ensures Valid()
      ensures multiset(heap) == multiset(old(heap)) && |heap| == |old(heap)|
    {
      var k: nat := idx;
      while k > 0
        invariant k < |heap| && OrderedAboveExcept(heap, k)
        invariant multiset(heap) == multiset(old(heap)) && |heap| == |old(heap)|
      {
        var p := Parent(k);
        if Before(heap[k], heap[p]) {
          SiftUpStep(heap, k);
          heap := heap[k := heap[p]][p := heap[k]];
          k := p;
        } else {
          break;
        }
      }
    }

    /** Moves the element at `idx` down, swapping it with its earlier child while that
        child precedes it. */
    method HeapifyDown(idx: nat)
      requires idx < |heap| && OrderedBelowExcept(heap, idx)
      modifies this
      ensures Valid()
      ensures multiset(heap) == multiset(old(heap)) && |heap| == |old(heap)|
    {
      var n := |heap|;
      var k := idx;
      while true
        invariant k < n == |heap| && OrderedBelowExcept(heap, k)
        invariant multiset(heap) == multiset(old(heap))
        decreases n - k
      {
        var left := 2 * k + 1;
        var right := 2 * k + 2;
        var smallest := k;
        if left < n && Before(heap[left], heap[smallest]) {
          smallest := left;
        }
        if right < n && Before(heap[right], heap[smallest]) {
          smallest := right;
        }
        if smallest != k {
          SiftDownStep(heap, k, smallest);
          heap := heap[k := heap[smallest]][smallest := heap[k]];
          k := smallest;
        } else {
          SiftDownDone(heap, k);
          break;
        }
      }
    }

    /** Adds `item`; the queue grows by exactly that element. */
    method Push(item: Delivery)
      requires Valid()
      modifies this
      ensures Valid()
      ensures multiset(heap) == multiset(old(heap)) + multiset{item}
      ensures |heap| == |old(heap)| + 1
    {
      heap := heap + [item];
      HeapifyUp(|heap| - 1);
    }

    /** Removes and returns the first element; `None` (the source throws) and no change
        when the queue is empty. */
    method Pop() returns (r: Option<Delivery>)
      requires Valid()
      modifies this
      ensures Valid()
      ensures old(heap) == [] <==> r.None?
      ensures r.None? ==> heap == old(heap)
      ensures r.Some? ==> r.value == old(heap)[0] && |heap| == |old(heap)| - 1
      ensures r.Some? ==> multiset(heap) + multiset{r.value} == multiset(old(heap))
      ensures r.Some? ==> forall i :: 0 <= i < |heap| ==> !Before(heap[i], r.value)
    {
      if heap == [] {
        return None;
      }
      var item := heap[0];
      ghost var h := heap;
      forall y | y in h ensures !Before(y, item) {
        var i :| 0 <= i < |h| && h[i] == y;
        RootIsFirst(h, i);
      }
      MoveLastToFront(heap);
      heap := heap[0 := heap[|heap| - 1]][..|heap| - 1];
      if heap != [] {
        HeapifyDown(0);
      }
      forall i | 0 <= i < |heap| ensures heap[i] in h {
        assert heap[i] in multiset(heap);
        assert heap[i] in multiset(h);
      }
      return Some(item);
    }

    /** The first element, without removing it; `None` (the source throws) when empty. */
    method Top() returns (r: Option<Delivery>)
      requires Valid()
      ensures heap == [] <==> r.None?
      ensures r.Some? ==> r.value == heap[0] && forall i :: 0 <= i < |heap| ==> !Before(heap[i], r.value)
    {
      if heap == [] {
        return None;
      }
      forall i | 0 <= i < |heap| ensures !Before(heap[i], heap[0]) {
        RootIsFirst(heap, i);
      }
      return Some(heap[0]);
    }

    method Empty() returns (e: bool)
      ensures e <==> |heap| == 0
    {
      e := heap == [];
    }

    method Size() returns (n: nat)
      ensures n == |heap|
    {
      n := |heap|;
    }
  }

  /** `out` was popped, in queue order, from a queue that started with the items `all`
      and now holds `rest`: together they are `all`, no popped item precedes one popped
      before it, and nothing left precedes anything popped. */
  ghost predicate DrainedFrom(out: seq<Delivery>, rest: seq<Delivery>, all: multiset<Delivery>)
  {
    && multiset(out) + multiset(rest) == all
    && (forall i, j :: 0 <= i < j < |out| ==> !Before(out[j], out[i]))
    && (forall i, y :: 0 <= i < |out| && y in rest ==> !Before(y, out[i]))
  }

  /** One pop keeps the drain in order: `x` leaves `before`, `after` is what remains, and
      nothing remaining precedes `x`. */
  lemma DrainStep(out: seq<Delivery>, x: Delivery, before: seq<Delivery>, after: seq<Delivery>,
                  all: multiset<Delivery>)
    requires DrainedFrom(out, before, all)
    requires multiset(after) + multiset{x} == multiset(before)
    requires forall i :: 0 <= i < |after| ==> !Before(after[i], x)
    ensures DrainedFrom(out + [x], after, all)
  {
    assert x in multiset(before);
    assert x in before;
    forall y | y in after ensures y in before {
      assert y in multiset(after);
      assert y in multiset(before);
    }
    var o := out + [x];
    forall i, j | 0 <= i < j < |o| ensures !Before(o[j], o[i]) {
      if j < |out| {
        assert o[i] == out[i] && o[j] == out[j];
      } else {
        assert o[j] == x && o[i] == out[i];
      }
    }
  }

  /** Pushing every item into a fresh queue and popping until it is empty yields the items
      in queue order: no popped item precedes one popped before it. */
  method PushAllPopAll(items: seq<Delivery>) returns (out: seq<Delivery>)
    ensures multiset(out) == multiset(items)
    ensures forall i, j :: 0 <= i < j < |out| ==> !Before(out[j], out[i])
  {
    var q := new PriorityQueue();
    var k := 0;
    while k < |items|
      invariant k <= |items| && q.Valid()
      invariant multiset(q.heap) == multiset(items[..k])
    {
      q.Push(items[k]);
      assert items[..k + 1] == items[..k] + [items[k]];
      k := k + 1;
    }
    assert items[..k] == items;
    out := [];
    while q.heap != []
      invariant q.Valid() && DrainedFrom(out, q.heap, multiset(items))
      decreases |q.heap|
    {
      ghost var before := q.heap;
      var r := q.Pop();
      DrainStep(out, r.value, before, q.heap, multiset(items));
      out := out + [r.value];
    }
  }
}
