/** The randomized queue (Week2 RandomizedQueue): a resizing array whose
    first `size` slots hold the items. Removal takes the item at a random
    slot and moves the last item into it. The random index of `dequeue`
    and `sample`, and the draws of the iterator's shuffle, are parameters
    here. The ghost sequence `items` is the abstract content: the array's
    first `size` slots in order. */
module RandomizedQueues {
  import opened Wrappers

  /** The indices 0 .. n-1 in order. */
  function Iota(n: nat): (r: seq<int>)
    ensures |r| == n
  {
    seq(n, i => i)
  }

  /** `order` lists each index below n exactly once. */
  ghost predicate IsPermutation(order: seq<int>, n: nat)
  {
    multiset(order) == multiset(Iota(n))
  }

  /** Each index below n occurs once in the multiset of Iota(n). */
  lemma {:induction false} IotaCount(n: nat, v: int)
    ensures multiset(Iota(n))[v] == if 0 <= v < n then 1 else 0
  {
    if n > 0 {
      assert Iota(n) == Iota(n - 1) + [n - 1];
      IotaCount(n - 1, v);
    }
  }

  /** A permutation of 0 .. n-1 has n entries, each below n, every index
      among them, and no index twice: visiting the slots in its order
      visits every slot exactly once. */
  lemma PermutationVisitsEachOnce(order: seq<int>, n: nat)
    requires IsPermutation(order, n)
    ensures |order| == n
    ensures forall j :: 0 <= j < |order| ==> 0 <= order[j] < n
    ensures forall i :: 0 <= i < n ==> i in order
    ensures forall j, k :: 0 <= j < k < |order| ==> order[j] != order[k]
  {
    assert |order| == |multiset(order)| == |multiset(Iota(n))| == n;
    forall j | 0 <= j < |order|
      ensures 0 <= order[j] < n
    {
      assert order[j] in multiset(order);
      IotaCount(n, order[j]);
    }
    forall i | 0 <= i < n
      ensures i in order
    {
      IotaCount(n, i);
      assert i in multiset(order);
    }
    forall j, k | 0 <= j < k < |order|
      ensures order[j] != order[k]
    {
      if order[j] == order[k] {
        var v := order[j];
        assert order == order[..k] + order[k..];
        assert order[..k][j] == v;
        assert order[k..][0] == v;
        assert multiset(order)[v] == multiset(order[..k])[v] + multiset(order[k..])[v] >= 2;
        IotaCount(n, v);
        assert false;
      }
    }
  }

  /** The items at the slots `order` names, in that order. */
  function Pick<T>(items: seq<T>, order: seq<int>): (r: seq<T>)
    requires forall j :: 0 <= j < |order| ==> 0 <= order[j] < |items|
    ensures |r| == |order|
  {
    seq(|order|, j requires 0 <= j < |order| => items[order[j]])
  }

  lemma PickAppend<T>(items: seq<T>, a: seq<int>, b: seq<int>)
    requires forall j :: 0 <= j < |a| ==> 0 <= a[j] < |items|
    requires forall j :: 0 <= j < |b| ==> 0 <= b[j] < |items|
    ensures Pick(items, a + b) == Pick(items, a) + Pick(items, b)
  {
  }

  /** Picking by an order with its k-th entry dropped loses exactly the item
      that entry names. */
  lemma PickDropOne<T>(items: seq<T>, o: seq<int>, k: int)
    requires forall j :: 0 <= j < |o| ==> 0 <= o[j] < |items|
    requires 0 <= k < |o|
    ensures multiset(Pick(items, o)) == multiset(Pick(items, o[..k] + o[k + 1..])) + multiset{items[o[k]]}
  {
    var x, front, back := o[k], o[..k], o[k + 1..];
    assert o == front + [x] + back;
    PickAppend(items, front + [x], back);
    PickAppend(items, front, [x]);
    PickAppend(items, front, back);
  }

  /** Dropping the last entry of one order and an equal entry of another
      keeps their multisets equal. */
  lemma DropMatching(o1: seq<int>, o2: seq<int>, k: int)
    requires multiset(o1) == multiset(o2) && o1 != []
    requires 0 <= k < |o2| && o2[k] == o1[|o1| - 1]
    ensures multiset(o1[..|o1| - 1]) == multiset(o2[..k] + o2[k + 1..])
  {
    var last, x, rest := |o1| - 1, o1[|o1| - 1], o2[..k] + o2[k + 1..];
    assert o1 == o1[..last] + [x];
    assert o2 == o2[..k] + [x] + o2[k + 1..];
    assert multiset(o2) == multiset(rest) + multiset{x};
    assert multiset(o1) == multiset(o1[..last]) + multiset{x};
    forall y
      ensures multiset(o1[..last])[y] == multiset(rest)[y]
    {
      assert multiset(o1)[y] == multiset(o2)[y];
    }
  }

  /** Picking by two orders with the same entries gives the same items,
      up to order. */
  lemma {:induction false} PickSameMultiset<T>(items: seq<T>, o1: seq<int>, o2: seq<int>)
    requires forall j :: 0 <= j < |o1| ==> 0 <= o1[j] < |items|
    requires forall j :: 0 <= j < |o2| ==> 0 <= o2[j] < |items|
    requires multiset(o1) == multiset(o2)
    ensures multiset(Pick(items, o1)) == multiset(Pick(items, o2))
    decreases |o1|
  {
    if o1 != [] {
      var last := |o1| - 1;
      var x := o1[last];
      assert x in multiset(o2) by {
        assert x in multiset(o1);
      }
      var k :| 0 <= k < |o2| && o2[k] == x;
      DropMatching(o1, o2, k);
      PickSameMultiset(items, o1[..last], o2[..k] + o2[k + 1..]);
      PickDropOne(items, o2, k);
      assert o1 == o1[..last] + [x];
      PickAppend(items, o1[..last], [x]);
    } else {
      assert |o2| == |multiset(o2)| == 0;
    }
  }

  lemma {:induction false} PickIota<T>(items: seq<T>, n: nat)
    requires n <= |items|
    ensures Pick(items, Iota(n)) == items[..n]
  {
    if n > 0 {
      assert Iota(n)[..n - 1] == Iota(n - 1);
      PickIota(items, n - 1);
      assert items[..n] == items[..n - 1] + [items[n - 1]];
    }
  }

  /** Visiting the slots in a permuted order yields every item exactly as
      often as the queue holds it. */
  lemma PickPermutation<T>(items: seq<T>, order: seq<int>)
    requires IsPermutation(order, |items|)
    ensures forall j :: 0 <= j < |order| ==> 0 <= order[j] < |items|
    ensures multiset(Pick(items, order)) == multiset(items)
  {
    PermutationVisitsEachOnce(order, |items|);
    PickSameMultiset(items, order, Iota(|items|));
    PickIota(items, |items|);
    assert items[..|items|] == items;
  }

  /** The queue after the item at slot k leaves: the last item moves into
      slot k and the sequence is one shorter. */
  function SwapRemove<T>(s: seq<T>, k: int): (t: seq<T>)
    requires 0 <= k < |s|
    ensures |t| == |s| - 1
  {
    if k == |s| - 1 then s[..k] else s[..|s| - 1][k := s[|s| - 1]]
  }

  /** Removal loses exactly the removed item; every other item stays at its
      slot except the last, which moves to slot k. */
  lemma SwapRemoveItems<T>(s: seq<T>, k: int)
    requires 0 <= k < |s|
    ensures multiset(SwapRemove(s, k)) + multiset{s[k]} == multiset(s)
    ensures forall i :: 0 <= i < |s| - 1 && i != k ==> SwapRemove(s, k)[i] == s[i]
    ensures k < |s| - 1 ==> SwapRemove(s, k)[k] == s[|s| - 1]
  {
    var n := |s|;
    assert s == s[..n - 1] + [s[n - 1]];
    if k < n - 1 {
      var front := s[..n - 1];
      assert front == front[..k] + [s[k]] + front[k + 1..];
      assert front[k := s[n - 1]] == front[..k] + [s[n - 1]] + front[k + 1..];
    }
  }

  /** The capacity a dequeue leaves: halved when the queue was at most a
      quarter full before the removal. */
  function CapacityAfterDequeue(size: int, capacity: int): int
  {
    if 4 * size <= capacity then capacity / 2 else capacity
  }

  /** The capacity an enqueue leaves: doubled when the array was full. */
  function CapacityAfterEnqueue(size: int, capacity: int): int
  {
    if capacity == size then 2 * capacity else capacity
  }

  /** Resizing keeps room for the items and never goes below two slots. */
  lemma CapacityStaysInBounds(size: int, capacity: int)
    requires 2 <= capacity && 0 <= size <= capacity
    ensures size < CapacityAfterEnqueue(size, capacity)
    ensures size >= 1 ==> 2 <= CapacityAfterDequeue(size, capacity)
    ensures size >= 1 ==> size - 1 < CapacityAfterDequeue(size, capacity)
  {
  }

  /** The draws of a Knuth shuffle of n entries: step i swaps entry i with
      an entry at i or after it. */
  predicate ShuffleDraws(draws: seq<int>, n: int)
  {
    |draws| == n && forall i :: 0 <= i < n ==> i <= draws[i] < n
  }

  /** StdRandom.shuffle with its random choices given as `draws`: the
      array ends up a permutation of what it held. */
  method Shuffle(a: array<int>, draws: seq<int>)
    requires ShuffleDraws(draws, a.Length)
    modifies a
    ensures multiset(a[..]) == multiset(old(a[..]))
  {
    for i := 0 to a.Length
      invariant multiset(a[..]) == multiset(old(a[..]))
    {
      var r := draws[i];
      a[i], a[r] := a[r], a[i];
    }
  }

  class RandomizedQueue<T> {
    var queue: array<Option<T>>
    var size: int
    var capacity: int
    ghost var items: seq<T>

    /** The first `size` slots hold the items, the rest are null, and
        size <= capacity with capacity at least two. */
    ghost predicate Valid()
      reads this, queue
    {
      && queue.Length == capacity >= 2
      && 0 <= size <= capacity
      && |items| == size
      && (forall i :: 0 <= i < size ==> queue[i] == Some(items[i]))
      && (forall i :: size <= i < capacity ==> queue[i] == None)
    }

    /** A new queue is empty with two slots. */
    constructor ()
      ensures Valid() && fresh(queue) && items == [] && capacity == 2
    {
      capacity := 2;
      size := 0;
      queue := new Option<T>[2](_ => None);
      items := [];
    }

    /** isEmpty. */
    function IsEmpty(): (e: bool)
      reads this, queue
      requires Valid()
      ensures e <==> items == []
    {
      size == 0
    }

    /** size: the number of items. */
    function Size(): (n: int)
      reads this, queue
      requires Valid()
      ensures n == |items|
    {
      size
    }

    /** enqueue: null is refused; a full array doubles first; the item goes
        to slot `size`. */
    method Enqueue(item: Option<T>) returns (r: Outcome)
      requires Valid()
      modifies this, queue
      ensures Valid()
      ensures queue == old(queue) || fresh(queue)
      ensures item.None? ==> r == Fail(IllegalArgument) && items == old(items) && capacity == old(capacity)
      ensures item.Some? ==> r == Pass && items == old(items) + [item.value]
                             && capacity == CapacityAfterEnqueue(old(size), old(capacity))
    {
      if item.None? {
        return Fail(IllegalArgument);
      }
      if capacity == size {
        ResizeQueue(2 * capacity);
      }
      queue[size] := item;
      size := size + 1;
      items := items + [item.value];
      return Pass;
    }

    /** resizeQueue: a new array of the given length receives the first
        `size` slots in order; the rest are null. */
    method ResizeQueue(newCapacity: int)
      requires 0 <= size <= queue.Length && size <= newCapacity
      modifies this
      ensures fresh(queue) && queue.Length == newCapacity && capacity == newCapacity
      ensures size == old(size) && items == old(items)
      ensures forall i :: 0 <= i < size ==> queue[i] == old(queue[i])
      ensures forall i :: size <= i < newCapacity ==> queue[i] == None
    {
      var newQueue := new Option<T>[newCapacity](_ => None);
      var oldQueue := queue;
      for i := 0 to size
        modifies newQueue
        invariant forall k :: 0 <= k < i ==> newQueue[k] == oldQueue[k]
        invariant forall k :: size <= k < newCapacity ==> newQueue[k] == None
      {
        newQueue[i] := oldQueue[i];
      }
      capacity := newCapacity;
      queue := newQueue;
    }

    /** dequeue with random slot `randIndex`: fails on an empty queue;
        otherwise returns the item at that slot, moves the last item into
        it, nulls the last slot and halves the array when it was at most a
        quarter full. */
    method Dequeue(randIndex: int) returns (r: Result<T>)
      requires Valid()
      requires items != [] ==> 0 <= randIndex < |items|
      modifies this, queue
      ensures Valid()
      ensures queue == old(queue) || fresh(queue)
      ensures old(items) == [] ==> r == Failure(NoSuchElement) && items == old(items) && capacity == old(capacity)
      ensures old(items) != [] ==> r == Success(old(items)[randIndex])
                                   && items == SwapRemove(old(items), randIndex)
                                   && capacity == CapacityAfterDequeue(old(size), old(capacity))
    {
      if IsEmpty() {
        return Failure(NoSuchElement);
      }
      var lastIndex := size - 1;
      var item := queue[randIndex];
      if randIndex != lastIndex {
        queue[randIndex] := queue[lastIndex];
      }
      queue[lastIndex] := None;
      if 4 * size <= capacity {
        ResizeQueue(capacity / 2);
      }
      size := size - 1;
      items := SwapRemove(items, randIndex);
      return Success(item.value);
    }

    /** sample with random slot `randIndex`: fails on an empty queue;
        otherwise the item at that slot, which is one of the items. */
    method Sample(randIndex: int) returns (r: Result<T>)
      requires Valid()
      requires items != [] ==> 0 <= randIndex < |items|
      ensures items == [] ==> r == Failure(NoSuchElement)
      ensures items != [] ==> r == Success(items[randIndex]) && r.value in items
    {
      if IsEmpty() {
        return Failure(NoSuchElement);
      }
      return Success(queue[randIndex].value);
    }

    /** iterator: a fresh iterator over a shuffled copy of the slot
        indices. */
    method Iterator(draws: seq<int>) returns (it: RandomizedQueueIterator<T>)
      requires Valid() && ShuffleDraws(draws, size)
      ensures fresh(it) && it.Valid() && it.rq == this && it.current == 0
    {
      it := new RandomizedQueueIterator(this, draws);
    }
  }

  /** The randomized queue's iterator: the slot indices 0 .. size-1 in a
      shuffled order, and a cursor into them. */
  class RandomizedQueueIterator<T> {
    const rq: RandomizedQueue<T>
    const randOrder: array<int>
    var current: int

    ghost predicate Valid()
      reads this, rq, rq.queue, randOrder
    {
      && rq.Valid()
      && randOrder.Length == rq.size
      && 0 <= current <= randOrder.Length
      && IsPermutation(randOrder[..], rq.size)
    }

    constructor (q: RandomizedQueue<T>, draws: seq<int>)
      requires q.Valid() && ShuffleDraws(draws, q.size)
      ensures Valid() && rq == q && current == 0 && fresh(randOrder)
    {
      var order := new int[q.Size()];
      for i := 0 to order.Length
        invariant forall k :: 0 <= k < i ==> order[k] == k
      {
        order[i] := i;
      }
      assert order[..] == Iota(order.Length);
      Shuffle(order, draws);
      rq := q;
      randOrder := order;
      current := 0;
    }

    /** hasNext: slots remain to visit. */
    function HasNext(): (b: bool)
      reads this, rq, rq.queue, randOrder
      requires Valid()
      ensures b <==> current < |rq.items|
    {
      current != randOrder.Length
    }

    /** next: the item at the next slot of the shuffled order; fails once
        every slot has been visited. The queue is not changed. */
    method Next() returns (r: Result<T>)
      requires Valid()
      modifies this
      ensures Valid()
      ensures old(current) < |rq.items| ==>
                && current == old(current) + 1
                && 0 <= randOrder[old(current)] < |rq.items|
                && r == Success(rq.items[randOrder[old(current)]])
      ensures old(current) == |rq.items| ==> r == Failure(NoSuchElement) && current == old(current)
    {
      if !HasNext() {
        return Failure(NoSuchElement);
      }
      PermutationVisitsEachOnce(randOrder[..], rq.size);
      var index := randOrder[current];
      current := current + 1;
      return Success(rq.queue[index].value);
    }

    /** remove is not supported. */
    method Remove() returns (r: Outcome)
      ensures r == Fail(UnsupportedOperation)
    {
      return Fail(UnsupportedOperation);
    }
  }

  /** Iterating a queue to the end yields each of its items exactly as
      often as the queue holds it, whatever the shuffle. */
  method IterateAll<T>(q: RandomizedQueue<T>, draws: seq<int>) returns (yielded: seq<T>)
    requires q.Valid() && ShuffleDraws(draws, q.size)
    ensures q.Valid() && multiset(yielded) == multiset(q.items)
  {
    var it := q.Iterator(draws);
    PermutationVisitsEachOnce(it.randOrder[..], q.size);
    yielded := [];
    while it.HasNext()
      invariant it.Valid() && it.rq == q
      invariant forall j :: 0 <= j < it.randOrder.Length ==> 0 <= it.randOrder[j] < |q.items|
      invariant yielded == Pick(q.items, it.randOrder[..it.current])
      decreases |q.items| - it.current
    {
      var item := it.Next();
      assert it.randOrder[..it.current] == it.randOrder[..it.current - 1] + [it.randOrder[it.current - 1]];
      yielded := yielded + [item.value];
    }
    assert it.randOrder[..it.current] == it.randOrder[..];
    PickPermutation(q.items, it.randOrder[..]);
  }

  /** Eight items enqueued into a new queue: the array grows from 2 to 4
      to 8 slots. */
  method EnqueueEight() returns (q: RandomizedQueue<int>)
    ensures fresh(q) && q.Valid() && q.items == [1, 2, 3, 4, 5, 7, 8, 9] && q.capacity == 8
  {
    q := new RandomizedQueue<int>();
    var _ := q.Enqueue(Some(1));
    var _ := q.Enqueue(Some(2));
    var _ := q.Enqueue(Some(3));
    var _ := q.Enqueue(Some(4));
    assert q.items == [1, 2, 3, 4] && q.capacity == 4;
    var _ := q.Enqueue(Some(5));
    var _ := q.Enqueue(Some(7));
    var _ := q.Enqueue(Some(8));
    var _ := q.Enqueue(Some(9));
  }

  /** Iterating the eight-item queue yields the eight items in some
      order, and leaves its size at 8. */
  method EnqueueAndIterate(draws: seq<int>) returns (yielded: seq<int>, size: int, capacity: int)
    requires ShuffleDraws(draws, 8)
    ensures multiset(yielded) == multiset{1, 2, 3, 4, 5, 7, 8, 9}
    ensures size == 8 && capacity == 8
  {
    var q := EnqueueEight();
    yielded := IterateAll(q, draws);
    size := q.Size();
    capacity := q.capacity;
  }

  /** Three items enqueued and dequeued from chosen slots: each dequeue
      returns the chosen item and moves the last one into its slot; the
      last dequeue halves the array back to two slots. */
  method DequeueScenario() returns (x: Result<int>, y: Result<int>, z: Result<int>, w: Result<int>, capacity: int)
    ensures x == Success(1) && y == Success(2) && z == Success(3)
    ensures w == Failure(NoSuchElement) && capacity == 2
  {
    var q := new RandomizedQueue<int>();
    var _ := q.Enqueue(Some(1));
    var _ := q.Enqueue(Some(2));
    var _ := q.Enqueue(Some(3));
    x := q.Dequeue(0);
    y := q.Dequeue(1);
    z := q.Dequeue(0);
    w := q.Dequeue(0);
    capacity := q.capacity;
  }
}
