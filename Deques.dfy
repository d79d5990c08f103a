/** The double-ended queue (Week2 Deque): a doubly linked list with a first
    and a last node and a size count. The ghost sequence `nodes` lists the
    list's nodes front to back and `items` their items: the abstract deque. */
module Deques {
  import opened Wrappers

  class Node<T> {
    const item: T
    var next: Node?<T>
    var prev: Node?<T>

    constructor (item: T)
      ensures this.item == item && prev == null && next == null
    {
      this.item := item;
      prev := null;
      next := null;
    }

    method SetNext(node: Node?<T>)
      modifies this
      ensures next == node && prev == old(prev)
    {
      next := node;
    }

    method SetPrev(node: Node?<T>)
      modifies this
      ensures prev == node && next == old(next)
    {
      prev := node;
    }
  }

  class Deque<T> {
    var first: Node?<T>
    var last: Node?<T>
    var size: int
    ghost var nodes: seq<Node<T>>
    ghost var items: seq<T>

    /** The nodes form one chain from first to last: each node's prev is the
        node before it and its next the node after it (null at the ends),
        and no node occurs twice. */
    ghost predicate Valid()
      reads this, nodes
    {
      && size == |nodes| == |items|
      && (size == 0 ==> first == null && last == null)
      && (size > 0 ==> first == nodes[0] && last == nodes[size - 1])
      && (forall i :: 0 <= i < size ==> nodes[i].item == items[i])
      && (forall i {:trigger nodes[i].prev} :: 0 <= i < size ==>
            nodes[i].prev == if i == 0 then null else nodes[i - 1])
      && (forall i {:trigger nodes[i].next} :: 0 <= i < size ==>
            nodes[i].next == if i == size - 1 then null else nodes[i + 1])
      && (forall i, j :: 0 <= i < j < size ==> nodes[i] != nodes[j])
    }

    constructor ()
      ensures Valid() && items == []
    {
      first := null;
      last := null;
      size := 0;
      nodes := [];
      items := [];
    }

    /** linkNodes: node1's next becomes node2 and node2's prev node1, where
        they are not null. */
    method LinkNodes(node1: Node?<T>, node2: Node?<T>)
      modifies node1, node2
      ensures node1 != null ==> node1.next == node2 && (node1 != node2 ==> node1.prev == old(node1.prev))
      ensures node2 != null ==> node2.prev == node1 && (node1 != node2 ==> node2.next == old(node2.next))
    {
      if node1 != null {
        node1.SetNext(node2);
      }
      if node2 != null {
        node2.SetPrev(node1);
      }
    }

    /** unlinkNode: the node's neighbours stop pointing at it, and the node
        at them. */
    method UnlinkNode(node: Node<T>)
      modifies node, node.prev, node.next
      ensures node.prev == null && node.next == null
      ensures old(node.prev) != null && old(node.prev) != node ==> old(node.prev).next == null
      ensures old(node.next) != null && old(node.next) != node && old(node.prev) != node ==>
                old(node.next).prev == null
      ensures old(node.prev) != null && old(node.prev) != node && old(node.prev) != old(node.next) ==>
                old(node.prev).prev == old(node.prev.prev)
      ensures old(node.next) != null && old(node.next) != node && old(node.next) != old(node.prev) ==>
                old(node.next).next == old(node.next.next)
    {
      if node.prev != null {
        node.prev.SetNext(null);
      }
      if node.next != null {
        node.next.SetPrev(null);
      }
      node.SetPrev(null);
      node.SetNext(null);
    }

    /** isEmpty. */
    function IsEmpty(): (e: bool)
      reads this, nodes
      requires Valid()
      ensures e <==> items == []
    {
      size == 0
    }

    /** size: the number of items. */
    function Size(): (n: int)
      reads this, nodes
      requires Valid()
      ensures n == |items|
    {
      size
    }

    /** addFirst: null is refused; otherwise the item goes to the front. */
    method AddFirst(item: Option<T>) returns (r: Outcome)
      requires Valid()
      modifies this, nodes
      ensures Valid()
      ensures item.None? ==> r == Fail(IllegalArgument) && items == old(items) && nodes == old(nodes)
      ensures item.Some? ==> r == Pass && items == [item.value] + old(items)
                             && fresh(nodes[0]) && nodes[1..] == old(nodes)
      ensures forall n <- nodes :: n in old(nodes) || fresh(n)
    {
      if item.None? {
        return Fail(IllegalArgument);
      }
      var node := new Node(item.value);
      if IsEmpty() {
        first, last := node, node;
      } else {
        LinkNodes(node, first);
        first := node;
      }
      size := size + 1;
      nodes := [node] + nodes;
      items := [item.value] + items;
      forall i | 0 <= i < size
        ensures nodes[i].next == if i == size - 1 then null else nodes[i + 1]
      {
        if i > 0 {
          assert nodes[i] == old(nodes)[i - 1] != node;
          assert old(nodes[i - 1].next) == if i == size - 1 then null else nodes[i + 1];
        }
      }
      assert nodes[1..] == old(nodes);
      return Pass;
    }

    /** addLast: null is refused; otherwise the item goes to the end. */
    method AddLast(item: Option<T>) returns (r: Outcome)
      requires Valid()
      modifies this, nodes
      ensures Valid()
      ensures item.None? ==> r == Fail(IllegalArgument) && items == old(items) && nodes == old(nodes)
      ensures item.Some? ==> r == Pass && items == old(items) + [item.value]
                             && fresh(nodes[|nodes| - 1]) && nodes[..|nodes| - 1] == old(nodes)
      ensures forall n <- nodes :: n in old(nodes) || fresh(n)
    {
      if item.None? {
        return Fail(IllegalArgument);
      }
      var node := new Node(item.value);
      if IsEmpty() {
        first, last := node, node;
      } else {
        LinkNodes(last, node);
        last := node;
      }
      size := size + 1;
      nodes := nodes + [node];
      items := items + [item.value];
      return Pass;
    }

    /** removeFirst: fails on an empty deque; otherwise takes the front item
        and leaves its node unlinked. */
    method RemoveFirst() returns (r: Result<T>)
      requires Valid()
      modifies this, nodes
      ensures Valid()
      ensures old(items) == [] ==> r == Failure(NoSuchElement) && items == old(items) && nodes == old(nodes)
      ensures old(items) != [] ==> r == Success(old(items)[0]) && items == old(items)[1..]
                                   && nodes == old(nodes)[1..]
                                   && old(nodes)[0].prev == null && old(nodes)[0].next == null
    {
      if IsEmpty() {
        return Failure(NoSuchElement);
      }
      var node := first;
      if size == 1 {
        first, last := null, null;
      } else {
        first := first.next;
      }
      UnlinkNode(node);
      size := size - 1;
      nodes := nodes[1..];
      items := items[1..];
      return Success(node.item);
    }

    /** removeLast: fails on an empty deque; otherwise takes the last item
        and leaves its node unlinked. */
    method RemoveLast() returns (r: Result<T>)
      requires Valid()
      modifies this, nodes
      ensures Valid()
      ensures old(items) == [] ==> r == Failure(NoSuchElement) && items == old(items) && nodes == old(nodes)
      ensures old(items) != [] ==> r == Success(old(items)[|old(items)| - 1])
                                   && items == old(items)[..|old(items)| - 1]
                                   && nodes == old(nodes)[..|old(nodes)| - 1]
                                   && old(nodes)[|old(nodes)| - 1].prev == null
                                   && old(nodes)[|old(nodes)| - 1].next == null
    {
      if IsEmpty() {
        return Failure(NoSuchElement);
      }
      var node := last;
      if size == 1 {
        last, first := null, null;
      } else {
        last := last.prev;
      }
      UnlinkNode(node);
      size := size - 1;
      nodes := nodes[..size];
      items := items[..size];
      return Success(node.item);
    }

    /** iterator: a new iterator at the front. */
    method Iterator() returns (it: DequeIterator<T>)
      requires Valid()
      ensures fresh(it) && it.Valid() && it.deque == this && it.index == 0
    {
      it := new DequeIterator(this);
    }
  }

  /** The deque's iterator: walks the nodes from first to last through their
      next links. `index` is the position of `current` in the deque. */
  class DequeIterator<T> {
    var current: Node?<T>
    ghost const deque: Deque<T>
    ghost var index: int

    ghost predicate Valid()
      reads this, deque, deque.nodes
    {
      && deque.Valid()
      && 0 <= index <= |deque.items|
      && current == if index < |deque.items| then deque.nodes[index] else null
    }

    constructor (d: Deque<T>)
      requires d.Valid()
      ensures Valid() && deque == d && index == 0
    {
      deque := d;
      current := d.first;
      index := 0;
    }

    /** hasNext: items remain. */
    function HasNext(): (b: bool)
      reads this, deque, deque.nodes
      requires Valid()
      ensures b <==> index < |deque.items|
    {
      current != null
    }

    /** next: the item at the current position, which then advances; fails
        once every item has been yielded. The deque is not changed. */
    method Next() returns (r: Result<T>)
      requires Valid()
      modifies this
      ensures Valid()
      ensures old(index) < |deque.items| ==> r == Success(deque.items[old(index)]) && index == old(index) + 1
      ensures old(index) == |deque.items| ==> r == Failure(NoSuchElement) && index == old(index)
    {
      if !HasNext() {
        return Failure(NoSuchElement);
      }
      var node := current;
      current := current.next;
      index := index + 1;
      return Success(node.item);
    }

    /** remove is not supported. */
    method Remove() returns (r: Outcome)
      ensures r == Fail(UnsupportedOperation)
    {
      return Fail(UnsupportedOperation);
    }
  }

  /** addFirst then removeFirst give the items back last in, first out. */
  method AddAndRemoveFirst() returns (x: Result<int>, y: Result<int>)
    ensures x == Success(0) && y == Success(56)
  {
    var deque := new Deque<int>();
    var _ := deque.AddFirst(Some(56));
    var _ := deque.AddFirst(Some(0));
    x := deque.RemoveFirst();
    y := deque.RemoveFirst();
  }

  /** addLast then removeLast give the items back last in, first out. */
  method AddAndRemoveLast() returns (x: Result<int>, y: Result<int>)
    ensures x == Success(0) && y == Success(56)
  {
    var deque := new Deque<int>();
    var _ := deque.AddLast(Some(56));
    var _ := deque.AddLast(Some(0));
    x := deque.RemoveLast();
    y := deque.RemoveLast();
  }

  /** addFirst a, addLast b, addFirst c: removeLast gives b, a, c. */
  method MixedAddAndRemoves() returns (x: Result<int>, y: Result<int>, z: Result<int>)
    ensures x == Success(0) && y == Success(56) && z == Success(-5)
  {
    var deque := new Deque<int>();
    var _ := deque.AddFirst(Some(56));
    var _ := deque.AddLast(Some(0));
    var _ := deque.AddFirst(Some(-5));
    x := deque.RemoveLast();
    y := deque.RemoveLast();
    z := deque.RemoveLast();
  }

  /** The size follows adds and removes at either end. */
  method SizeAndIsEmpty() returns (sizes: seq<int>, empties: seq<bool>)
    ensures sizes == [0, 1, 0, 1, 0] && empties == [true, false, true, false, true]
  {
    var deque := new Deque<int>();
    sizes, empties := [deque.Size()], [deque.IsEmpty()];
    var _ := deque.AddLast(Some(12));
    sizes, empties := sizes + [deque.Size()], empties + [deque.IsEmpty()];
    var _ := deque.RemoveFirst();
    sizes, empties := sizes + [deque.Size()], empties + [deque.IsEmpty()];
    var _ := deque.AddFirst(Some(12));
    sizes, empties := sizes + [deque.Size()], empties + [deque.IsEmpty()];
    var _ := deque.RemoveLast();
    sizes, empties := sizes + [deque.Size()], empties + [deque.IsEmpty()];
  }

  /** The iterator yields the items front to back and leaves the deque as
      it was. */
  method IterateAll<T>(deque: Deque<T>) returns (yielded: seq<T>)
    requires deque.Valid()
    ensures yielded == deque.items && deque.Valid()
  {
    var it := deque.Iterator();
    yielded := [];
    while it.HasNext()
      invariant it.Valid() && it.deque == deque
      invariant yielded == deque.items[..it.index]
      decreases |deque.items| - it.index
    {
      var item := it.Next();
      yielded := yielded + [item.value];
    }
  }

  /** Six items added at the front are iterated in reverse order of adding;
      iterating leaves the size at 6. */
  method IteratorScenario() returns (yielded: seq<int>, size: int)
    ensures yielded == [0, 1, 2, 3, 4, 5] && size == 6
  {
    var deque := new Deque<int>();
    var _ := deque.AddFirst(Some(5));
    var _ := deque.AddFirst(Some(4));
    var _ := deque.AddFirst(Some(3));
    var _ := deque.AddFirst(Some(2));
    var _ := deque.AddFirst(Some(1));
    var _ := deque.AddFirst(Some(0));
    yielded := IterateAll(deque);
    size := deque.Size();
  }
}
