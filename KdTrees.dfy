/** The 2-d tree over points of the unit square (Week5 KdTree).

    The tree's nodes live in an arena: node objects are the entries of the
    sequence `arena`, a node's identity is its position there, and the
    pointers `parent`, `left` and `right` are positions, with -1 for null.
    Nodes are only ever appended, and a child is always created after its
    parent, so a child's position is larger than its parent's. */
module KdTrees {
  import opened Wrappers
  import opened Geometry

  /** The axis along which a node splits its rectangle. */
  datatype Orientation = Vertical | Horizontal

  /** The two subtrees of a node. */
  datatype Subtree = Left | Right

  /** A tree node: its point, split axis, spanning rectangle and links. */
  datatype Node = Node(p: Point, orientation: Orientation, rect: Rect,
                       parent: int, left: int, right: int)

  /** The null link. */
  const Nil: int := -1

  function Flip(o: Orientation): (r: Orientation)
    ensures r != o
  {
    if o == Vertical then Horizontal else Vertical
  }

  /** The coordinate a node of orientation `o` compares on. */
  function Coord(p: Point, o: Orientation): real {
    if o == Vertical then p.x else p.y
  }

  /** detectSubtree: strictly smaller on the node's axis goes left, equal or
      larger goes right. */
  function DetectSubtree(node: Node, p: Point): (s: Subtree)
    ensures s == Left <==> Coord(p, node.orientation) < Coord(node.p, node.orientation)
  {
    if node.orientation == Vertical && p.x < node.p.x then Left
    else if node.orientation == Horizontal && p.y < node.p.y then Left
    else Right
  }

  /** getChild. */
  function GetChild(node: Node, s: Subtree): int {
    if s == Left then node.left else node.right
  }

  /** rectFor: the spanning rectangle of a new child of `parent` on side
      `s`, where `orientation` is the NEW node's orientation (the flip of the
      parent's, so a HORIZONTAL child was cut on x). */
  function RectFor(parent: Node, orientation: Orientation, s: Subtree): (child: Rect)
    ensures Contains(parent.rect, parent.p) ==>
              && WellFormed(child)
              && forall q :: Contains(child, q) <==>
                   && Contains(parent.rect, q)
                   && if s == Left then Coord(q, Flip(orientation)) <= Coord(parent.p, Flip(orientation))
                      else Coord(parent.p, Flip(orientation)) <= Coord(q, Flip(orientation))
  {
    var r := parent.rect;
    if s == Left then
      if orientation == Horizontal then Rect(r.xmin, r.ymin, parent.p.x, r.ymax)
      else Rect(r.xmin, r.ymin, r.xmax, parent.p.y)
    else
      if orientation == Horizontal then Rect(parent.p.x, r.ymin, r.xmax, r.ymax)
      else Rect(r.xmin, parent.p.y, r.xmax, r.ymax)
  }

  /** The rectangles rectFor gives the two children of a node whose point lies
      in its rectangle partition that rectangle along the node's own axis:
      every point of the parent's rectangle is in one of them, both lie
      inside it, and they share only the split line. */
  lemma RectForPartition(parent: Node, q: Point)
    requires Contains(parent.rect, parent.p)
    ensures var o := parent.orientation;
            var lo := RectFor(parent, Flip(o), Left);
            var hi := RectFor(parent, Flip(o), Right);
            && (Contains(parent.rect, q) <==> Contains(lo, q) || Contains(hi, q))
            && (Contains(lo, q) && Contains(hi, q) ==> Coord(q, o) == Coord(parent.p, o))
            && WellFormed(lo) && WellFormed(hi)
            && Coord(parent.p, o) == (if o == Vertical then lo.xmax else lo.ymax)
            && Coord(parent.p, o) == (if o == Vertical then hi.xmin else hi.ymin)
  {
  }

  // ---------------------------------------------------------------------
  // Regions: the ghost bookkeeping behind the ordering invariant.
  // A node's region is its rectangle with, per axis, whether the upper bound
  // is strict (it came from a left cut, where the split coordinate itself
  // goes right).
  // ---------------------------------------------------------------------

  datatype Region = Region(rect: Rect, openX: bool, openY: bool)

  const UnitRegion: Region := Region(UnitSquare, false, false)

  predicate InRegion(q: Point, g: Region) {
    var r := g.rect;
    && r.xmin <= q.x && (q.x < r.xmax || (!g.openX && q.x == r.xmax))
    && r.ymin <= q.y && (q.y < r.ymax || (!g.openY && q.y == r.ymax))
  }

  /** The region of a new child of `parent` (whose region is `g`) on side `s`. */
  function Cut(g: Region, parent: Node, s: Subtree): Region {
    var rect := RectFor(parent, Flip(parent.orientation), s);
    if s == Right then Region(rect, g.openX, g.openY)
    else if parent.orientation == Vertical then Region(rect, true, g.openY)
    else Region(rect, g.openX, true)
  }

  /** A child's region is exactly the part of its parent's region that
      detectSubtree sends to the child's side. */
  lemma CutSide(g: Region, parent: Node, s: Subtree, q: Point)
    requires g.rect == parent.rect && InRegion(parent.p, g)
    ensures InRegion(q, Cut(g, parent, s)) <==> InRegion(q, g) && DetectSubtree(parent, q) == s
  {
  }

  // ---------------------------------------------------------------------
  // The arena invariant
  // ---------------------------------------------------------------------

  /** A child link is null, or points forward to a node that names this one
      as its parent. */
  predicate ChildOk(a: seq<Node>, i: int, c: int) {
    c == Nil || (0 <= i < c < |a| && a[c].parent == i)
  }

  predicate Linked(a: seq<Node>) {
    forall i :: 0 <= i < |a| ==> ChildOk(a, i, a[i].left) && ChildOk(a, i, a[i].right)
  }

  /** Which side of its parent the non-root node `i` hangs on. */
  function SideOf(a: seq<Node>, i: int): Subtree
    requires 0 <= i < |a| && 0 <= a[i].parent < |a|
  {
    if a[a[i].parent].left == i then Left else Right
  }

  /** The non-root node `i` hangs under an earlier node, has the flipped
      orientation, and its rectangle and region are cut from the parent's. */
  ghost predicate ParentOk(a: seq<Node>, g: seq<Region>, i: int)
    requires 0 < i < |a| && |g| == |a|
  {
    var q := a[i].parent;
    && 0 <= q < i
    && (a[q].left == i || a[q].right == i)
    && a[i].orientation == Flip(a[q].orientation)
    && a[i].rect == RectFor(a[q], a[i].orientation, SideOf(a, i))
    && g[i] == Cut(g[q], a[q], SideOf(a, i))
  }

  ghost predicate NodeOk(a: seq<Node>, g: seq<Region>, i: int)
    requires 0 <= i < |a| && |g| == |a|
  {
    && ChildOk(a, i, a[i].left) && ChildOk(a, i, a[i].right)
    && (a[i].left != Nil ==> a[i].left != a[i].right)
    && g[i].rect == a[i].rect
    && InRegion(a[i].p, g[i])
    && (i == 0 ==> a[i].parent == Nil && a[i].orientation == Vertical && g[i] == UnitRegion)
    && (i > 0 ==> ParentOk(a, g, i))
  }

  ghost predicate ValidArena(a: seq<Node>, g: seq<Region>) {
    |g| == |a| && forall i :: 0 <= i < |a| ==> NodeOk(a, g, i)
  }

  /** getChild follows a node's link on side s: it is null, or a later node
      that names this one as its parent, hangs on side s, has the flipped
      orientation and the rectangle rectFor cuts for that side. */
  lemma GetChildLinks(a: seq<Node>, g: seq<Region>, i: int, s: Subtree)
    requires ValidArena(a, g) && 0 <= i < |a|
    ensures var c := GetChild(a[i], s);
            c == Nil || (&& i < c < |a| && a[c].parent == i && SideOf(a, c) == s
                         && a[c].orientation == Flip(a[i].orientation)
                         && a[c].rect == RectFor(a[i], a[c].orientation, s))
  {
    var c := GetChild(a[i], s);
    assert NodeOk(a, g, i);
    if c != Nil {
      assert NodeOk(a, g, c);
    }
  }

  /** The distinct points stored anywhere in the arena. */
  function AllPoints(a: seq<Node>): set<Point> {
    set i | 0 <= i < |a| :: a[i].p
  }

  /** The points stored in the subtree rooted at node `i`. */
  ghost function SubPoints(a: seq<Node>, i: int): set<Point>
    requires Linked(a) && 0 <= i < |a|
    decreases |a| - i
  {
    {a[i].p}
    + (if a[i].left == Nil then {} else SubPoints(a, a[i].left))
    + (if a[i].right == Nil then {} else SubPoints(a, a[i].right))
  }

  lemma ValidIsLinked(a: seq<Node>, g: seq<Region>)
    requires ValidArena(a, g)
    ensures Linked(a)
  {
    forall i | 0 <= i < |a| ensures ChildOk(a, i, a[i].left) && ChildOk(a, i, a[i].right) {
      assert NodeOk(a, g, i);
    }
  }

  /** Every point stored in a subtree lies in the region of the subtree's
      root, hence inside the root's rectangle. */
  lemma {:induction false} SubPointsInRegion(a: seq<Node>, g: seq<Region>, i: int, q: Point)
    requires ValidArena(a, g) && Linked(a) && 0 <= i < |a|
    requires q in SubPoints(a, i)
    ensures InRegion(q, g[i]) && Contains(a[i].rect, q)
    decreases |a| - i
  {
    assert NodeOk(a, g, i);
    if q == a[i].p {
    } else if a[i].left != Nil && q in SubPoints(a, a[i].left) {
      var c := a[i].left;
      SubPointsInRegion(a, g, c, q);
      assert NodeOk(a, g, c) && SideOf(a, c) == Left;
      CutSide(g[i], a[i], Left, q);
    } else {
      var c := a[i].right;
      assert c != Nil && q in SubPoints(a, c);
      SubPointsInRegion(a, g, c, q);
      assert NodeOk(a, g, c);
      assert SideOf(a, c) == Right;
      CutSide(g[i], a[i], Right, q);
    }
  }

  /** A subtree's points are among the arena's points. */
  lemma {:induction false} SubPointsStored(a: seq<Node>, i: int)
    requires Linked(a) && 0 <= i < |a|
    ensures SubPoints(a, i) <= AllPoints(a)
    decreases |a| - i
  {
    assert a[i].p in AllPoints(a);
    if a[i].left != Nil { SubPointsStored(a, a[i].left); }
    if a[i].right != Nil { SubPointsStored(a, a[i].right); }
  }

  /** Every node is reachable from the root: each subtree's points are among
      the root subtree's points. */
  lemma {:induction false} SubtreeUnderRoot(a: seq<Node>, g: seq<Region>, j: int)
    requires ValidArena(a, g) && Linked(a) && 0 <= j < |a|
    ensures SubPoints(a, j) <= SubPoints(a, 0)
    decreases j
  {
    if j > 0 {
      assert NodeOk(a, g, j) && ParentOk(a, g, j);
      var q := a[j].parent;
      SubtreeUnderRoot(a, g, q);
      assert SubPoints(a, j) <= SubPoints(a, q);
    }
  }

  /** The root's subtree holds exactly the arena's points. */
  lemma RootHoldsAll(a: seq<Node>, g: seq<Region>)
    requires ValidArena(a, g) && |a| > 0
    ensures Linked(a) && SubPoints(a, 0) == AllPoints(a)
  {
    ValidIsLinked(a, g);
    SubPointsStored(a, 0);
    forall q | q in AllPoints(a) ensures q in SubPoints(a, 0) {
      var j :| 0 <= j < |a| && a[j].p == q;
      SubtreeUnderRoot(a, g, j);
    }
  }

  /** One step of a search: a point of node i's subtree other than node i's
      own lies in the subtree detectSubtree chooses. */
  lemma SearchStep(a: seq<Node>, g: seq<Region>, i: int, q: Point)
    requires ValidArena(a, g) && Linked(a) && 0 <= i < |a|
    requires q in SubPoints(a, i) && q != a[i].p
    ensures var c := GetChild(a[i], DetectSubtree(a[i], q));
            c != Nil && 0 <= c < |a| && q in SubPoints(a, c)
  {
    assert NodeOk(a, g, i);
    if a[i].left != Nil && q in SubPoints(a, a[i].left) {
      var c := a[i].left;
      SubPointsInRegion(a, g, c, q);
      assert NodeOk(a, g, c) && SideOf(a, c) == Left;
      CutSide(g[i], a[i], Left, q);
    } else {
      var c := a[i].right;
      assert c != Nil && q in SubPoints(a, c);
      SubPointsInRegion(a, g, c, q);
      assert NodeOk(a, g, c) && SideOf(a, c) == Right;
      CutSide(g[i], a[i], Right, q);
    }
  }

  /** The arena after insert links a new leaf holding `q` under `node` on
      side `s`. */
  function Attach(a: seq<Node>, node: int, s: Subtree, q: Point): seq<Node>
    requires 0 <= node < |a|
  {
    var k := |a|;
    var parent := a[node];
    var linked := if s == Left then parent.(left := k) else parent.(right := k);
    var orientation := Flip(parent.orientation);
    a[node := linked] + [Node(q, orientation, RectFor(parent, orientation, s), node, Nil, Nil)]
  }

  /** Attaching a new leaf where the search for its point ended keeps the
      arena invariant. */
  lemma AttachKeepsValid(a: seq<Node>, g: seq<Region>, node: int, s: Subtree, q: Point)
    requires ValidArena(a, g) && 0 <= node < |a|
    requires DetectSubtree(a[node], q) == s && GetChild(a[node], s) == Nil
    requires InRegion(q, g[node])
    ensures ValidArena(Attach(a, node, s, q), g + [Cut(g[node], a[node], s)])
  {
    var a' := Attach(a, node, s, q);
    var g' := g + [Cut(g[node], a[node], s)];
    var k := |a|;
    assert NodeOk(a, g, node);
    CutSide(g[node], a[node], s, q);
    forall i | 0 <= i < |a'| ensures NodeOk(a', g', i) {
      if i == k {
        assert a'[k].parent == node && SideOf(a', k) == s;
      } else {
        assert NodeOk(a, g, i);
        if i > 0 {
          var q := a[i].parent;
          assert a'[i].parent == q;
          assert SideOf(a', i) == SideOf(a, i);
          assert a'[q].p == a[q].p && a'[q].orientation == a[q].orientation && a'[q].rect == a[q].rect;
        }
      }
    }
  }

  /** Attaching a leaf adds its point to the arena's points and leaves every
      existing node's point, orientation, rectangle and parent as it was. */
  lemma AttachPoints(a: seq<Node>, node: int, s: Subtree, q: Point)
    requires 0 <= node < |a|
    ensures var a' := Attach(a, node, s, q);
            && |a'| == |a| + 1 && a'[|a|].p == q
            && AllPoints(a') == AllPoints(a) + {q}
            && forall i :: 0 <= i < |a| ==>
                 a'[i].p == a[i].p && a'[i].orientation == a[i].orientation
                 && a'[i].rect == a[i].rect && a'[i].parent == a[i].parent
  {
    var a' := Attach(a, node, s, q);
    forall x | x in AllPoints(a') ensures x in AllPoints(a) + {q} {
      var j :| 0 <= j < |a'| && a'[j].p == x;
      if j < |a| { assert a[j].p == x; }
    }
    forall x | x in AllPoints(a) ensures x in AllPoints(a') {
      var j :| 0 <= j < |a| && a[j].p == x;
      assert a'[j].p == x;
    }
    assert a'[|a|].p == q;
  }

  /** A one-node arena holds exactly its root's point. */
  lemma SingleNodePoints(a: seq<Node>, q: Point)
    requires |a| == 1 && a[0].p == q
    ensures AllPoints(a) == {q}
  {
    assert q in AllPoints(a);
    forall x | x in AllPoints(a) ensures x == q {
      var j :| 0 <= j < |a| && a[j].p == x;
    }
  }

  class KdTree {
    /** The TreeSet of nodes, ordered (and so de-duplicated) by point. */
    var nodes: set<Point>
    var root: int
    var arena: seq<Node>
    ghost var regions: seq<Region>

    ghost predicate Valid()
      reads this
    {
      && ValidArena(arena, regions)
      && root == (if |arena| == 0 then Nil else 0)
      && nodes == AllPoints(arena)
    }

    constructor ()
      ensures Valid() && nodes == {} && arena == []
    {
      nodes := {};
      root := Nil;
      arena := [];
      regions := [];
    }

    /** isEmpty: no distinct points exactly when the tree has no node. */
    function IsEmpty(): (e: bool)
      reads this
      requires Valid()
      ensures e <==> root == Nil
    {
      assert |arena| > 0 ==> arena[0].p in AllPoints(arena);
      |nodes| == 0
    }

    /** size: the number of distinct points, not of tree nodes. */
    function Size(): (n: nat)
      reads this
      requires Valid()
      ensures n <= |arena|
      ensures n == 0 <==> IsEmpty()
    {
      AllPointsBound(arena);
      |nodes|
    }

    /** insert. A null point throws before any change. The point joins the
        de-duplicating set of nodes, and a new node is always linked, even
        when an equal point is already stored. */
    method Insert(p: Option<Point>) returns (r: Outcome)
      requires Valid()
      requires p.Some? ==> Geometry.Contains(UnitSquare, p.value)
      modifies this
      ensures Valid()
      ensures p.None? ==> r == Fail(IllegalArgument) && arena == old(arena) && nodes == old(nodes)
      ensures p.Some? ==> r == Pass
      ensures p.Some? ==> nodes == old(nodes) + {p.value}
      ensures p.Some? ==> |arena| == |old(arena)| + 1 && arena[|old(arena)|].p == p.value
      ensures p.Some? ==> forall i :: 0 <= i < |old(arena)| ==>
                arena[i].p == old(arena)[i].p && arena[i].orientation == old(arena)[i].orientation
                && arena[i].rect == old(arena)[i].rect && arena[i].parent == old(arena)[i].parent
    {
      if p.None? {
        return Fail(IllegalArgument);
      }
      var q := p.value;
      var newNodes := nodes + {q};
      if root == Nil {
        arena := [Node(q, Vertical, UnitSquare, Nil, Nil, Nil)];
        regions := [UnitRegion];
        root := 0;
        nodes := newNodes;
        SingleNodePoints(arena, q);
        return Pass;
      }
      assert NodeOk(arena, regions, 0);
      var node := root;
      while true
        invariant arena == old(arena) && regions == old(regions) && nodes == old(nodes) && root == old(root)
        invariant 0 <= node < |arena| == |regions|
        invariant InRegion(q, regions[node])
        decreases |arena| - node
      {
        assert NodeOk(arena, regions, node);
        var subtree := DetectSubtree(arena[node], q);
        var child := GetChild(arena[node], subtree);
        if child != Nil {
          assert NodeOk(arena, regions, child) && SideOf(arena, child) == subtree;
          CutSide(regions[node], arena[node], subtree, q);
          node := child;
        } else {
          AttachKeepsValid(arena, regions, node, subtree, q);
          AttachPoints(arena, node, subtree, q);
          regions := regions + [Cut(regions[node], arena[node], subtree)];
          arena := Attach(arena, node, subtree, q);
          break;
        }
      }
      nodes := newNodes;
      return Pass;
    }

    /** contains: walks the same path insert would and reports whether it
        meets a node with an equal point before a null child. */
    method Contains(p: Option<Point>) returns (r: Result<bool>)
      requires Valid()
      ensures p.None? ==> r == Failure(IllegalArgument)
      ensures p.Some? ==> r == Success(p.value in nodes)
    {
      if p.None? {
        return Failure(IllegalArgument);
      }
      var q := p.value;
      ValidIsLinked(arena, regions);
      if root != Nil {
        RootHoldsAll(arena, regions);
      }
      var node := root;
      while true
        invariant node == Nil || 0 <= node < |arena|
        invariant q in nodes ==> node != Nil && q in SubPoints(arena, node)
        decreases if node == Nil then 0 else |arena| + 1 - node
      {
        if node == Nil {
          return Success(false);
        }
        if arena[node].p == q {
          assert q in AllPoints(arena);
          return Success(true);
        }
        var next := GetChild(arena[node], DetectSubtree(arena[node], q));
        if q in nodes {
          SearchStep(arena, regions, node, q);
        }
        assert NodeOk(arena, regions, node);
        node := next;
      }
    }

    /** The recursive step of range (the local class Search's `next`):
        adds the points of node i's subtree that the query contains. */
    method RangeFrom(i: int, query: Rect, acc: set<Point>) returns (result: set<Point>)
      requires Valid() && Linked(arena) && 0 <= i < |arena|
      ensures result == acc + InRange(SubPoints(arena, i), query)
      decreases |arena| - i
    {
      assert NodeOk(arena, regions, i);
      RangeSplit(arena, i, query);
      var node := arena[i];
      result := acc;
      if Geometry.Contains(query, node.p) {
        result := result + {node.p};
      }
      ghost var own := result;
      if node.left != Nil && Intersects(query, arena[node.left].rect) {
        result := RangeFrom(node.left, query, result);
      } else if node.left != Nil {
        PrunedSubtreeMissesQuery(node.left, query);
      }
      assert result == own + ChildRange(arena, node.left, query);
      ghost var leftDone := result;
      if node.right != Nil && Intersects(query, arena[node.right].rect) {
        result := RangeFrom(node.right, query, result);
      } else if node.right != Nil {
        PrunedSubtreeMissesQuery(node.right, query);
      }
      assert result == leftDone + ChildRange(arena, node.right, query);
    }

    /** A subtree whose rectangle does not intersect the query holds no
        point the query contains, so pruning it loses nothing. */
    lemma PrunedSubtreeMissesQuery(c: int, query: Rect)
      requires Valid() && Linked(arena) && 0 <= c < |arena|
      requires !Intersects(query, arena[c].rect)
      ensures InRange(SubPoints(arena, c), query) == {}
    {
      forall q | q in SubPoints(arena, c) ensures !Geometry.Contains(query, q) {
        SubPointsInRegion(arena, regions, c, q);
        if Geometry.Contains(query, q) {
          CommonPointIntersects(query, arena[c].rect, q);
        }
      }
    }

    /** range: exactly the stored points inside the query rectangle
        (boundary-inclusive), as a set. */
    method Range(rect: Option<Rect>) returns (r: Result<set<Point>>)
      requires Valid()
      ensures rect.None? ==> r == Failure(IllegalArgument)
      ensures rect.Some? ==> r == Success(InRange(nodes, rect.value))
    {
      if rect.None? {
        return Failure(IllegalArgument);
      }
      var pointsInRange: set<Point> := {};
      if root == Nil {
        assert nodes == {};
        assert InRange(nodes, rect.value) == {};
      } else {
        RootHoldsAll(arena, regions);
        pointsInRange := RangeFrom(root, rect.value, pointsInRange);
        assert pointsInRange == InRange(SubPoints(arena, 0), rect.value);
        assert pointsInRange == InRange(nodes, rect.value);
      }
      return Success(pointsInRange);
    }

    /** searchSubtree: is the child `c` worth visiting, given the best
        squared distance so far? */
    function SearchSubtree(c: int, distance: real, p: Point): (eligible: bool)
      reads this
      requires c == Nil || 0 <= c < |arena|
      ensures eligible ==> c != Nil
    {
      c != Nil && RectDistSq(arena[c].rect, p) < distance
    }

    /** A child that searchSubtree rejects holds no point closer than the
        bound, so skipping it loses no answer. */
    lemma SkippedSubtreeIsFar(c: int, distance: real, p: Point)
      requires Valid() && Linked(arena) && 0 <= c < |arena|
      requires !SearchSubtree(c, distance, p)
      ensures forall q :: q in SubPoints(arena, c) ==> distance <= DistSq(p, q)
    {
      forall q | q in SubPoints(arena, c) ensures distance <= DistSq(p, q) {
        SubPointsInRegion(arena, regions, c, q);
        RectDistSqBelowMembers(arena[c].rect, p, q);
      }
    }

    /** The recursive step of nearest (the local class Search's `next`):
        given the best node so far and its squared distance, returns the best
        after searching node i's subtree. The incumbent is replaced only by a
        strictly closer point, so among equals the first found stays. */
    method NearestFrom(i: int, p: Point, best: int, distance: real)
      returns (best': int, distance': real)
      requires Valid() && Linked(arena) && 0 <= i < |arena|
      requires 0 <= best < |arena| && distance == DistSq(p, arena[best].p)
      ensures 0 <= best' < |arena| && distance' == DistSq(p, arena[best'].p)
      ensures distance' <= distance
      ensures distance' < distance || best' == best
      ensures forall q :: q in SubPoints(arena, i) ==> distance' <= DistSq(p, q)
      decreases |arena| - i
    {
      assert NodeOk(arena, regions, i);
      var node := arena[i];
      best', distance' := best, distance;
      if DistSq(p, node.p) < distance' {
        best', distance' := i, DistSq(p, node.p);
      }
      if SearchSubtree(node.left, distance', p) && SearchSubtree(node.right, distance', p) {
        var leftFirst := if node.orientation == Horizontal then p.y < node.p.y else p.x < node.p.x;
        if leftFirst {
          best', distance' := NearestFrom(node.left, p, best', distance');
          if SearchSubtree(node.right, distance', p) {
            best', distance' := NearestFrom(node.right, p, best', distance');
          } else {
            SkippedSubtreeIsFar(node.right, distance', p);
          }
        } else {
          best', distance' := NearestFrom(node.right, p, best', distance');
          if SearchSubtree(node.left, distance', p) {
            best', distance' := NearestFrom(node.left, p, best', distance');
          } else {
            SkippedSubtreeIsFar(node.left, distance', p);
          }
        }
      } else {
        if SearchSubtree(node.left, distance', p) {
          best', distance' := NearestFrom(node.left, p, best', distance');
        } else if node.left != Nil {
          SkippedSubtreeIsFar(node.left, distance', p);
        }
        if SearchSubtree(node.right, distance', p) {
          best', distance' := NearestFrom(node.right, p, best', distance');
        } else if node.right != Nil {
          SkippedSubtreeIsFar(node.right, distance', p);
        }
      }
    }

    /** nearest: null on an empty tree; otherwise a stored point no farther
        from p than any stored point. */
    method Nearest(p: Option<Point>) returns (r: Result<Option<Point>>)
      requires Valid()
      ensures p.None? ==> r == Failure(IllegalArgument)
      ensures p.Some? && nodes == {} ==> r == Success(None)
      ensures p.Some? && nodes != {} ==>
                r.Success? && r.value.Some? && r.value.value in nodes
                && forall q :: q in nodes ==> DistSq(p.value, r.value.value) <= DistSq(p.value, q)
    {
      if p.None? {
        return Failure(IllegalArgument);
      }
      if nodes == {} {
        return Success(None);
      }
      assert root != Nil;
      RootHoldsAll(arena, regions);
      var q := p.value;
      var best, distance := NearestFrom(root, q, root, DistSq(q, arena[root].p));
      assert arena[best].p in AllPoints(arena);
      return Success(Some(arena[best].p));
    }
  }

  /** The in-range points of the subtree under link `c`; none for null. */
  ghost function ChildRange(a: seq<Node>, c: int, query: Rect): set<Point>
    requires Linked(a) && (c == Nil || 0 <= c < |a|)
  {
    if c == Nil then {} else InRange(SubPoints(a, c), query)
  }

  /** The in-range points of a subtree are those of its root and of its two
      child subtrees. */
  lemma RangeSplit(a: seq<Node>, i: int, query: Rect)
    requires Linked(a) && 0 <= i < |a|
    ensures a[i].left == Nil || 0 <= a[i].left < |a|
    ensures a[i].right == Nil || 0 <= a[i].right < |a|
    ensures InRange(SubPoints(a, i), query)
            == (if Geometry.Contains(query, a[i].p) then {a[i].p} else {})
               + ChildRange(a, a[i].left, query) + ChildRange(a, a[i].right, query)
  {
  }

  lemma AllPointsBound(a: seq<Node>)
    ensures |AllPoints(a)| <= |a|
    ensures |a| > 0 ==> |AllPoints(a)| > 0
  {
    if |a| > 0 {
      assert a[0].p in AllPoints(a);
      AllPointsBound(a[..|a| - 1]);
      assert AllPoints(a) == AllPoints(a[..|a| - 1]) + {a[|a| - 1].p} by {
        forall x | x in AllPoints(a) ensures x in AllPoints(a[..|a| - 1]) + {a[|a| - 1].p} {
          var j :| 0 <= j < |a| && a[j].p == x;
          if j < |a| - 1 { assert a[..|a| - 1][j].p == x; }
        }
        forall x | x in AllPoints(a[..|a| - 1]) ensures x in AllPoints(a) {
          var j :| 0 <= j < |a| - 1 && a[..|a| - 1][j].p == x;
          assert a[j].p == x;
        }
      }
    }
  }
  // ---------------------------------------------------------------------
  // The checks of KdTree's test methods
  // ---------------------------------------------------------------------

  const A: Point := Point(0.7, 0.2)
  const B: Point := Point(0.5, 0.4)
  const C: Point := Point(0.2, 0.3)
  const D: Point := Point(0.4, 0.7)
  const E: Point := Point(0.9, 0.6)

  /** A tree holding the five test points a to e, inserted in that order. */
  method FivePointTree() returns (t: KdTree)
    ensures fresh(t) && t.Valid() && t.nodes == {A, B, C, D, E}
  {
    t := new KdTree();
    var _ := t.Insert(Some(A));
    var _ := t.Insert(Some(B));
    var _ := t.Insert(Some(C));
    var _ := t.Insert(Some(D));
    var _ := t.Insert(Some(E));
  }

  /** testBasic: re-inserting an equal point links a second node, yet the
      size stays 1 and the point is still found. */
  method DuplicateScenario() returns (emptyBefore: bool, size: nat, found: Result<bool>, nodeCount: nat)
    ensures emptyBefore && size == 1 && found == Success(true) && nodeCount == 2
  {
    var t := new KdTree();
    emptyBefore := t.IsEmpty();
    var _ := t.Insert(Some(Point(0.1, 0.2)));
    var _ := t.Insert(Some(Point(0.1, 0.2)));
    assert t.nodes == {Point(0.1, 0.2)};
    size := t.Size();
    found := t.Contains(Some(Point(0.1, 0.2)));
    nodeCount := |t.arena|;
  }

  /** testRange: the three queries find {b, d}, {a, c} and nothing. */
  method RangeScenario() returns (r1: Result<set<Point>>, r2: Result<set<Point>>, r3: Result<set<Point>>)
    ensures r1 == Success({B, D}) && r2 == Success({A, C}) && r3 == Success({})
  {
    var t := FivePointTree();
    r1 := t.Range(Some(Rect(0.3, 0.3, 0.8, 1.0)));
    r2 := t.Range(Some(Rect(0.1, 0.1, 0.8, 0.3)));
    r3 := t.Range(Some(Rect(0.8, 0.0, 1.0, 0.2)));
    TestRanges(t.nodes);
  }

  lemma TestRanges(s: set<Point>)
    requires s == {A, B, C, D, E}
    ensures InRange(s, Rect(0.3, 0.3, 0.8, 1.0)) == {B, D}
    ensures InRange(s, Rect(0.1, 0.1, 0.8, 0.3)) == {A, C}
    ensures InRange(s, Rect(0.8, 0.0, 1.0, 0.2)) == {}
  {
    var r1, r2, r3 := Rect(0.3, 0.3, 0.8, 1.0), Rect(0.1, 0.1, 0.8, 0.3), Rect(0.8, 0.0, 1.0, 0.2);
    forall q | q in s ensures (q in InRange(s, r1) <==> q == B || q == D)
                        && (q in InRange(s, r2) <==> q == A || q == C)
                        && q !in InRange(s, r3)
    {
    }
  }

  /** testNearest: the query at c finds c, (1, 1) finds e, and the query at
      b finds b. */
  method NearestScenario() returns (n1: Result<Option<Point>>, n2: Result<Option<Point>>, n3: Result<Option<Point>>)
    ensures n1 == Success(Some(C)) && n2 == Success(Some(E)) && n3 == Success(Some(B))
  {
    var t := FivePointTree();
    n1 := t.Nearest(Some(C));
    NearestIsUnique(t.nodes, C, n1.value.value, C);
    n2 := t.Nearest(Some(Point(1.0, 1.0)));
    NearestIsUnique(t.nodes, Point(1.0, 1.0), n2.value.value, E);
    n3 := t.Nearest(Some(B));
    NearestIsUnique(t.nodes, B, n3.value.value, B);
  }

  /** Over the five test points, each of the three test queries has a
      single closest point. */
  lemma NearestIsUnique(s: set<Point>, p: Point, m: Point, expected: Point)
    requires s == {A, B, C, D, E}
    requires (p == C && expected == C) || (p == Point(1.0, 1.0) && expected == E) || (p == B && expected == B)
    requires m in s && forall q :: q in s ==> DistSq(p, m) <= DistSq(p, q)
    ensures m == expected
  {
    assert DistSq(p, m) <= DistSq(p, expected);
    forall q | q in s && q != expected ensures DistSq(p, expected) < DistSq(p, q) {
    }
  }
}
