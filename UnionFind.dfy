/** The contract of the library's weighted quick-union structure, as far as
    percolation uses it: a partition of the elements 0..k-1 that `union`
    coarsens by merging two blocks. A partition is represented by a block
    label per element; two elements are connected when their labels agree. */
module UnionFind {

  /** A partition of 0..|labels|-1: element i lies in block labels[i]. */
  type Partition = seq<int>

  /** The partition a new structure over k elements starts with: every
      element alone in its block. */
  function Singletons(k: nat): (uf: Partition)
    ensures |uf| == k
    ensures forall x, y :: 0 <= x < k && 0 <= y < k ==> (Connected(uf, x, y) <==> x == y)
  {
    seq(k, i => i)
  }

  predicate Connected(uf: Partition, x: int, y: int)
    requires 0 <= x < |uf| && 0 <= y < |uf|
  {
    uf[x] == uf[y]
  }

  /** union(a, b): the blocks of a and b become one. */
  function Union(uf: Partition, a: int, b: int): (r: Partition)
    requires 0 <= a < |uf| && 0 <= b < |uf|
    ensures |r| == |uf|
    ensures Connected(r, a, b)
  {
    Relabel(uf, uf[a], uf[b])
  }

  /** Every label `from` replaced by `to`. */
  function Relabel(labels: seq<int>, from: int, to: int): (r: seq<int>)
    ensures |r| == |labels|
    ensures forall i :: 0 <= i < |labels| ==> r[i] == if labels[i] == from then to else labels[i]
  {
    if labels == [] then []
    else
      var last := labels[|labels| - 1];
      Relabel(labels[..|labels| - 1], from, to) + [if last == from then to else last]
  }

  /** After union(a, b), x and y are connected exactly when they were already,
      or one was connected to a and the other to b: union adds the pair
      (a, b) to the connectivity relation and closes it under transitivity,
      and nothing more. */
  lemma UnionConnects(uf: Partition, a: int, b: int, x: int, y: int)
    requires 0 <= a < |uf| && 0 <= b < |uf| && 0 <= x < |uf| && 0 <= y < |uf|
    ensures Connected(Union(uf, a, b), x, y)
            <==> || Connected(uf, x, y)
                 || (Connected(uf, x, a) && Connected(uf, b, y))
                 || (Connected(uf, x, b) && Connected(uf, a, y))
  {
  }

  /** Every entry of `targets` is an element of the structure. */
  predicate Elements(uf: Partition, targets: seq<int>) {
    forall i :: 0 <= i < |targets| ==> 0 <= targets[i] < |uf|
  }

  /** Several unions of `s` with each of `targets`, in order. */
  function UnionAll(uf: Partition, s: int, targets: seq<int>): (r: Partition)
    requires 0 <= s < |uf|
    requires Elements(uf, targets)
    ensures |r| == |uf|
    decreases |targets|
  {
    if targets == [] then uf
    else Union(UnionAll(uf, s, targets[..|targets| - 1]), s, targets[|targets| - 1])
  }

  lemma UnionAllSingle(uf: Partition, s: int, a: int)
    requires 0 <= s < |uf| && 0 <= a < |uf|
    ensures UnionAll(uf, s, [a]) == Union(uf, s, a)
  {
    assert [a][..0] == [];
  }

  lemma UnionAllPair(uf: Partition, s: int, a: int, b: int)
    requires 0 <= s < |uf| && 0 <= a < |uf| && 0 <= b < |uf|
    ensures UnionAll(uf, s, [a, b]) == Union(Union(uf, s, a), s, b)
  {
    assert [a, b][..1] == [a];
    UnionAllSingle(uf, s, a);
  }

  /** After the unions, `s` is connected to every target, and every pair that
      was connected stays connected. */
  lemma {:induction false} UnionAllConnects(uf: Partition, s: int, targets: seq<int>, x: int, y: int)
    requires 0 <= s < |uf| && 0 <= x < |uf| && 0 <= y < |uf|
    requires Elements(uf, targets)
    ensures Connected(uf, x, y) ==> Connected(UnionAll(uf, s, targets), x, y)
    ensures x in targets ==> Connected(UnionAll(uf, s, targets), s, x)
    decreases |targets|
  {
    if targets != [] {
      var prefix := targets[..|targets| - 1];
      var last := targets[|targets| - 1];
      var before := UnionAll(uf, s, prefix);
      UnionAllConnects(uf, s, prefix, x, y);
      UnionAllConnects(uf, s, prefix, s, x);
      UnionConnects(before, s, last, x, y);
      UnionConnects(before, s, last, s, x);
      if x in targets && x != last {
        assert x in prefix;
      }
    }
  }

  /** Element c is connected to no other element. */
  predicate Isolated(uf: Partition, c: int)
    requires 0 <= c < |uf|
  {
    forall t :: 0 <= t < |uf| && t != c ==> !Connected(uf, c, t)
  }

  /** An element connected to nothing else stays so through unions that do
      not name it. */
  lemma {:induction false} UnionAllKeepsIsolated(uf: Partition, s: int, targets: seq<int>, c: int)
    requires 0 <= s < |uf| && 0 <= c < |uf| && c != s && c !in targets
    requires Elements(uf, targets)
    requires Isolated(uf, c)
    ensures Isolated(UnionAll(uf, s, targets), c)
    decreases |targets|
  {
    if targets != [] {
      var prefix := targets[..|targets| - 1];
      var last := targets[|targets| - 1];
      UnionAllKeepsIsolated(uf, s, prefix, c);
      var before := UnionAll(uf, s, prefix);
      forall t | 0 <= t < |uf| && t != c
        ensures !Connected(Union(before, s, last), c, t)
      {
        UnionConnects(before, s, last, c, t);
      }
    }
  }

  /** Element v is anchored in lo..hi-1: whenever v's block holds another
      element, it holds one of lo..hi-1. */
  predicate Anchored(uf: Partition, v: int, lo: int, hi: int)
    requires 0 <= v < |uf|
  {
    (exists y :: 0 <= y < |uf| && y != v && Connected(uf, y, v)) ==>
      exists a :: 0 <= a < |uf| && lo <= a < hi && Connected(uf, a, v)
  }

  /** A union of s with x keeps v anchored in lo..hi-1 when s is not v and
      s lies in lo..hi-1 whenever x is v. */
  lemma UnionKeepsAnchored(uf: Partition, s: int, x: int, v: int, lo: int, hi: int)
    requires 0 <= s < |uf| && 0 <= x < |uf| && 0 <= v < |uf| && s != v
    requires x == v ==> lo <= s < hi
    requires Anchored(uf, v, lo, hi)
    ensures Anchored(Union(uf, s, x), v, lo, hi)
  {
    var r := Union(uf, s, x);
    if y :| 0 <= y < |r| && y != v && Connected(r, y, v) {
      UnionConnects(uf, s, x, y, v);
      if x == v {
        UnionConnects(uf, s, x, s, v);
      } else {
        var w := if Connected(uf, y, v) then y else if Connected(uf, x, v) then x else s;
        assert w != v && Connected(uf, w, v);
        var a :| 0 <= a < |uf| && lo <= a < hi && Connected(uf, a, v);
        UnionConnects(uf, s, x, a, v);
      }
    }
  }

  /** Unions of s with targets keep v anchored in lo..hi-1 when s is not v
      and s lies in lo..hi-1 whenever v is among the targets. */
  lemma {:induction false} UnionAllKeepsAnchored(uf: Partition, s: int, targets: seq<int>, v: int, lo: int, hi: int)
    requires 0 <= s < |uf| && 0 <= v < |uf| && s != v
    requires Elements(uf, targets)
    requires v in targets ==> lo <= s < hi
    requires Anchored(uf, v, lo, hi)
    ensures Anchored(UnionAll(uf, s, targets), v, lo, hi)
    decreases |targets|
  {
    if targets != [] {
      var prefix := targets[..|targets| - 1];
      var last := targets[|targets| - 1];
      assert v in prefix ==> v in targets;
      UnionAllKeepsAnchored(uf, s, prefix, v, lo, hi);
      UnionKeepsAnchored(UnionAll(uf, s, prefix), s, last, v, lo, hi);
    }
  }
}
