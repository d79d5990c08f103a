/** The percolation system (Week1 Percolation): an n-by-n grid of sites,
    each open or blocked, whose connectivity is tracked by a union-find
    structure over the n*n sites plus a virtual top and a virtual bottom
    element. Rows and columns are numbered from 1 to n. */
module Percolations {
  import opened Wrappers
  import opened UnionFind
  import opened Arithmetic

  /** The index standing for a position off the grid. */
  const IndexOutOfBounds: int := -1

  /** argsOutOfBounds: (row, col) is not a position of the n-by-n grid. */
  predicate ArgsOutOfBounds(n: int, row: int, col: int) {
    row < 1 || row > n || col < 1 || col > n
  }

  /** The row and the column of site index t. */
  function RowOf(n: int, t: int): int
    requires n > 0
  {
    t / n + 1
  }

  function ColOf(n: int, t: int): int
    requires n > 0
  {
    t % n + 1
  }

  /** indexFromXY: row-major flat index of an in-grid position, -1 for any
      other. The index lies among the n*n sites and gives back its row and
      column. */
  function IndexFromXY(n: int, row: int, col: int): (r: int)
    ensures ArgsOutOfBounds(n, row, col) ==> r == IndexOutOfBounds
    ensures !ArgsOutOfBounds(n, row, col) ==> 0 <= r < n * n
  {
    if ArgsOutOfBounds(n, row, col) then IndexOutOfBounds
    else
      SitesBelowSquare(n, row, col);
      (row - 1) * n + (col - 1)
  }

  /** The index of an in-grid position gives back its row and column. */
  lemma IndexRoundTrip(n: int, row: int, col: int)
    requires !ArgsOutOfBounds(n, row, col)
    ensures RowOf(n, IndexFromXY(n, row, col)) == row && ColOf(n, IndexFromXY(n, row, col)) == col
  {
    DivModOfIndex(n, row - 1, col - 1);
  }

  lemma SitesBelowSquare(n: int, row: int, col: int)
    requires !ArgsOutOfBounds(n, row, col)
    ensures 0 <= (row - 1) * n + (col - 1) < n * n
  {
    MulMonotone(row - 1, n - 1, n);
    assert (n - 1) * n == n * n - n;
  }

  /** The index of a position is below n exactly in row 1, and at least
      n*n - n exactly in row n. */
  lemma RowBounds(n: int, row: int, col: int)
    requires !ArgsOutOfBounds(n, row, col)
    ensures var t := (row - 1) * n + (col - 1);
            && (t < n <==> row == 1)
            && (n * n - n <= t < n * n <==> row == n)
  {
    SitesBelowSquare(n, row, col);
    if row > 1 {
      MulMonotone(1, row - 1, n);
    }
    if row < n {
      MulMonotone(row - 1, n - 2, n);
      assert (n - 2) * n == n * n - n - n;
    } else {
      assert (n - 1) * n == n * n - n;
    }
  }

  /** Every site index is the index of its own row and column. */
  lemma IndexOfSite(n: int, t: int)
    requires n > 0 && 0 <= t < n * n
    ensures !ArgsOutOfBounds(n, RowOf(n, t), ColOf(n, t))
    ensures IndexFromXY(n, RowOf(n, t), ColOf(n, t)) == t
  {
    var q, m := t / n, t % n;
    assert q * n + m == t;
    if q >= n {
      MulMonotone(n, q, n);
    }
    DivModOfIndex(n, q, m);
  }

  /** (row, col) passes argsOutOfBounds exactly when it is the row and column
      of one of the n*n sites. */
  lemma InGridIffSite(n: int, row: int, col: int)
    requires n > 0
    ensures !ArgsOutOfBounds(n, row, col) <==>
              exists t :: 0 <= t < n * n && RowOf(n, t) == row && ColOf(n, t) == col
  {
    if !ArgsOutOfBounds(n, row, col) {
      IndexRoundTrip(n, row, col);
      var t := IndexFromXY(n, row, col);
      assert RowOf(n, t) == row && ColOf(n, t) == col;
    }
    if t :| 0 <= t < n * n && RowOf(n, t) == row && ColOf(n, t) == col {
      IndexOfSite(n, t);
    }
  }

  /** Site t is below n exactly in row 1, and at least n*n - n exactly in
      row n. */
  lemma SiteRowBounds(n: int, t: int)
    ensures n > 0 && 0 <= t < n * n ==>
              && (t < n <==> RowOf(n, t) == 1)
              && (n * n - n <= t <==> RowOf(n, t) == n)
  {
    if n > 0 && 0 <= t < n * n {
      IndexOfSite(n, t);
      RowBounds(n, RowOf(n, t), ColOf(n, t));
    }
  }

  /** The flat indices of row n are n*n - n to n*n - 1. */
  lemma BottomRowIndices(n: int)
    ensures forall col :: 1 <= col <= n ==> IndexFromXY(n, n, col) == n * n - n + col - 1
  {
    assert (n - 1) * n == n * n - n;
  }

  /** Two sites are orthogonal neighbours of the grid. */
  predicate Adjacent(n: int, a: int, b: int)
    requires n > 0
  {
    var dr := RowOf(n, a) - RowOf(n, b);
    var dc := ColOf(n, a) - ColOf(n, b);
    (dr == 0 && (dc == 1 || dc == -1)) || (dc == 0 && (dr == 1 || dr == -1))
  }

  /** getNeighbors: left, right, up and down, each -1 when off the grid. */
  function GetNeighbors(n: int, row: int, col: int): (r: seq<int>)
    ensures |r| == 4
    ensures forall i :: 0 <= i < 4 ==> r[i] == IndexOutOfBounds || 0 <= r[i] < n * n
  {
    [IndexFromXY(n, row, col - 1), IndexFromXY(n, row, col + 1),
     IndexFromXY(n, row - 1, col), IndexFromXY(n, row + 1, col)]
  }

  /** The sites getNeighbors lists are exactly the grid neighbours of the
      site at (row, col). */
  lemma NeighborsAreAdjacent(n: int, row: int, col: int, t: int)
    requires !ArgsOutOfBounds(n, row, col) && 0 <= t < n * n
    ensures t in GetNeighbors(n, row, col) <==> Adjacent(n, IndexFromXY(n, row, col), t)
  {
    IndexOfSite(n, t);
    IndexRoundTrip(n, row, col);
    if !ArgsOutOfBounds(n, row, col - 1) { IndexRoundTrip(n, row, col - 1); }
    if !ArgsOutOfBounds(n, row, col + 1) { IndexRoundTrip(n, row, col + 1); }
    if !ArgsOutOfBounds(n, row - 1, col) { IndexRoundTrip(n, row - 1, col); }
    if !ArgsOutOfBounds(n, row + 1, col) { IndexRoundTrip(n, row + 1, col); }
    var nbs := GetNeighbors(n, row, col);
    var r, c := RowOf(n, t), ColOf(n, t);
    if Adjacent(n, IndexFromXY(n, row, col), t) {
      if r == row && c == col - 1 { assert nbs[0] == t; }
      else if r == row && c == col + 1 { assert nbs[1] == t; }
      else if r == row - 1 { assert nbs[2] == t; }
      else { assert nbs[3] == t; }
    }
  }

  /** The number of open flags. */
  function CountOpen(s: seq<bool>): (k: nat)
    ensures k <= |s|
  {
    CountPrefix(s, |s|)
  }

  /** The number of open flags among the first k. */
  function CountPrefix(s: seq<bool>, k: int): (c: nat)
    requires 0 <= k <= |s|
    ensures c <= k
  {
    if k == 0 then 0 else CountPrefix(s, k - 1) + (if s[k - 1] then 1 else 0)
  }

  lemma {:induction false} CountPrefixNone(s: seq<bool>, k: int)
    requires 0 <= k <= |s|
    requires forall i :: 0 <= i < |s| ==> !s[i]
    ensures CountPrefix(s, k) == 0
  {
    if k > 0 {
      CountPrefixNone(s, k - 1);
    }
  }

  /** Opening one blocked entry adds one to the count of every prefix that
      holds it, and nothing to the others. */
  lemma {:induction false} CountPrefixAfter(before: seq<bool>, after: seq<bool>, i: int, k: int)
    requires |after| == |before| && 0 <= i < |before| && !before[i] && after[i]
    requires forall j :: 0 <= j < |before| && j != i ==> after[j] == before[j]
    requires 0 <= k <= |before|
    ensures CountPrefix(after, k) == CountPrefix(before, k) + (if i < k then 1 else 0)
  {
    if k > 0 {
      CountPrefixAfter(before, after, i, k - 1);
    }
  }

  /** Opening one blocked site, all others unchanged, adds exactly one to the
      count. */
  lemma CountOpenAfter(before: seq<bool>, after: seq<bool>, i: int)
    requires |after| == |before| && 0 <= i < |before| && !before[i] && after[i]
    requires forall j :: 0 <= j < |before| && j != i ==> after[j] == before[j]
    ensures CountOpen(after) == CountOpen(before) + 1
  {
    CountPrefixAfter(before, after, i, |before|);
  }

  /** The open entries of a neighbour list, in order: the sites open sees it
      must union with. */
  function OpenNeighbors(nbs: seq<int>, open: seq<bool>): (r: seq<int>)
    ensures forall i :: 0 <= i < |r| ==> 0 <= r[i] < |open| && open[r[i]]
    ensures forall i :: 0 <= i < |nbs| && 0 <= nbs[i] < |open| && open[nbs[i]] ==> nbs[i] in r
  {
    if nbs == [] then []
    else
      var last := nbs[|nbs| - 1];
      var rest := OpenNeighbors(nbs[..|nbs| - 1], open);
      assert forall i :: 0 <= i < |nbs| - 1 ==> nbs[..|nbs| - 1][i] == nbs[i];
      rest + (if last != IndexOutOfBounds && 0 <= last < |open| && open[last] then [last] else [])
  }

  /** After the unions with the open entries of a neighbour list, the site
      is connected to every open neighbour. */
  lemma OpenNeighborsConnected(uf: Partition, s: int, nbs: seq<int>, open: seq<bool>)
    requires 0 <= s < |uf| && |open| <= |uf|
    ensures forall t :: t in nbs && 0 <= t < |open| && open[t] ==>
              Connected(UnionAll(uf, s, OpenNeighbors(nbs, open)), s, t)
  {
    var openNbs := OpenNeighbors(nbs, open);
    forall t | t in nbs && 0 <= t < |open| && open[t]
      ensures Connected(UnionAll(uf, s, openNbs), s, t)
    {
      var i :| 0 <= i < |nbs| && nbs[i] == t;
      assert t in openNbs;
      UnionAllConnects(uf, s, openNbs, t, t);
    }
  }

  /** A site joined to v by a first round of unions stays joined to it
      after a second round. */
  lemma JoinedThroughBothRounds(uf: Partition, s: int, first: seq<int>, second: seq<int>, v: int)
    requires 0 <= s < |uf| && Elements(uf, first) && Elements(uf, second) && v in first
    ensures Connected(UnionAll(UnionAll(uf, s, first), s, second), s, v)
  {
    var i :| 0 <= i < |first| && first[i] == v;
    UnionAllConnects(uf, s, first, v, v);
    UnionAllConnects(UnionAll(uf, s, first), s, second, s, v);
  }

  /** One more neighbour examined: one more union when it is open. */
  lemma UnionAllOpenStep(uf: Partition, s: int, nbs: seq<int>, open: seq<bool>, k: int)
    requires 0 <= s < |uf| && |open| <= |uf| && 0 <= k < |nbs|
    ensures var prev := UnionAll(uf, s, OpenNeighbors(nbs[..k], open));
            UnionAll(uf, s, OpenNeighbors(nbs[..k + 1], open))
            == if nbs[k] != IndexOutOfBounds && 0 <= nbs[k] < |open| && open[nbs[k]]
               then Union(prev, s, nbs[k]) else prev
  {
    assert nbs[..k + 1][..k] == nbs[..k];
    var before := OpenNeighbors(nbs[..k], open);
    if nbs[k] != IndexOutOfBounds && 0 <= nbs[k] < |open| && open[nbs[k]] {
      var after := before + [nbs[k]];
      assert after[..|after| - 1] == before;
    } else {
      assert before + [] == before;
    }
  }

  /** Unions of an open site with open sites and virtual elements leave
      every blocked site isolated. */
  lemma UnionsKeepBlockedIsolated(uf: Partition, site: int, targets: seq<int>, open: seq<bool>)
    requires |uf| == |open| + 2 && 0 <= site < |open| && open[site]
    requires Elements(uf, targets)
    requires forall i :: 0 <= i < |targets| ==> targets[i] >= |open| || open[targets[i]]
    requires forall c :: 0 <= c < |open| && !open[c] ==> Isolated(uf, c)
    ensures forall c :: 0 <= c < |open| && !open[c] ==> Isolated(UnionAll(uf, site, targets), c)
  {
    forall c | 0 <= c < |open| && !open[c]
      ensures Isolated(UnionAll(uf, site, targets), c)
    {
      UnionAllKeepsIsolated(uf, site, targets, c);
    }
  }

  class Percolation {
    const n: int
    const totalSites: int
    const topElement: int
    const bottomElement: int
    /** Open flag per site. */
    const openedSites: array<bool>
    var connectedSites: Partition
    var numberOfOpenSites: int

    ghost predicate Valid()
      reads this, openedSites
    {
      && n > 0 && totalSites == n * n
      && topElement == totalSites && bottomElement == totalSites + 1
      && openedSites.Length == totalSites
      && |connectedSites| == totalSites + 2
      && numberOfOpenSites == CountOpen(openedSites[..])
      && (forall s :: 0 <= s < totalSites && !openedSites[s] ==> Isolated(connectedSites, s))
      && BottomJoined(connectedSites, openedSites[..])
    }

    /** A new grid: every site blocked, nothing connected. */
    constructor (n: int)
      requires n > 0
      ensures Valid() && fresh(openedSites)
      ensures this.n == n && numberOfOpenSites == 0
      ensures forall s :: 0 <= s < totalSites ==> !openedSites[s]
      ensures connectedSites == Singletons(n * n + 2)
    {
      this.n := n;
      totalSites := n * n;
      topElement := n * n;
      bottomElement := n * n + 1;
      connectedSites := Singletons(n * n + 2);
      openedSites := new bool[n * n](_ => false);
      numberOfOpenSites := 0;
      new;
      CountPrefixNone(openedSites[..], openedSites.Length);
    }

    /** The constructor's argument check: n <= 0 is refused. */
    static method Create(n: int) returns (r: Result<Percolation>)
      ensures n <= 0 ==> r == Failure(IllegalArgument)
      ensures n > 0 ==> r.Success? && fresh(r.value) && fresh(r.value.openedSites)
                        && r.value.Valid() && r.value.n == n && r.value.numberOfOpenSites == 0
                        && !r.value.Percolates()
    {
      if n <= 0 {
        return Failure(IllegalArgument);
      }
      var p := new Percolation(n);
      return Success(p);
    }

    /** isTopRow: on the grid, the sites of row 1. */
    function IsTopRow(index: int): (r: bool)
      ensures r <==> exists col :: 1 <= col <= n && index == IndexFromXY(n, 1, col)
    {
      if 0 <= index < n then
        assert index == IndexFromXY(n, 1, index + 1);
        true
      else
        false
    }

    /** isBottomRow: on the grid, the sites of row n. */
    function IsBottomRow(index: int): (r: bool)
      ensures totalSites == n * n ==>
                (r <==> exists col :: 1 <= col <= n && index == IndexFromXY(n, n, col))
    {
      BottomRowIndices(n);
      if totalSites - n <= index < totalSites then
        assert totalSites == n * n ==> index == IndexFromXY(n, n, index - totalSites + n + 1);
        true
      else
        false
    }

    /** The virtual bottom is joined to every open site of the bottom row,
        and its block holds a bottom-row site whenever it holds anything
        besides the virtual bottom. */
    predicate BottomJoined(uf: Partition, open: seq<bool>)
      requires |uf| == totalSites + 2 && |open| == totalSites && bottomElement == totalSites + 1
    {
      && Anchored(uf, bottomElement, totalSites - n, totalSites)
      && forall s :: 0 <= s < totalSites && IsBottomRow(s) && open[s] ==> Connected(uf, s, bottomElement)
    }

    /** The virtual elements open must union a site with. */
    function TopBottom(site: int): seq<int> {
      (if IsTopRow(site) then [topElement] else []) + (if IsBottomRow(site) then [bottomElement] else [])
    }

    /** A site is in the top row exactly when its row is 1, and in the bottom
        row exactly when its row is n. */
    lemma RowsOfSite(row: int, col: int)
      requires Valid() && !ArgsOutOfBounds(n, row, col)
      ensures IsTopRow(IndexFromXY(n, row, col)) <==> row == 1
      ensures IsBottomRow(IndexFromXY(n, row, col)) <==> row == n
    {
      RowBounds(n, row, col);
    }

    /** isOpen. */
    function IsOpen(row: int, col: int): (r: Result<bool>)
      reads this, openedSites
      requires Valid()
      ensures ArgsOutOfBounds(n, row, col) ==> r == Failure(IllegalArgument)
      ensures !ArgsOutOfBounds(n, row, col) ==>
                r.Success? && (r.value <==> openedSites[IndexFromXY(n, row, col)])
    {
      if ArgsOutOfBounds(n, row, col) then Failure(IllegalArgument)
      else Success(openedSites[IndexFromXY(n, row, col)])
    }

    /** isFull: the site is connected to the virtual top element. */
    function IsFull(row: int, col: int): (r: Result<bool>)
      reads this, openedSites
      requires Valid()
      ensures ArgsOutOfBounds(n, row, col) ==> r == Failure(IllegalArgument)
      ensures !ArgsOutOfBounds(n, row, col) ==>
                r.Success? && (r.value <==> Connected(connectedSites, topElement, IndexFromXY(n, row, col)))
    {
      if ArgsOutOfBounds(n, row, col) then Failure(IllegalArgument)
      else Success(Connected(connectedSites, topElement, IndexFromXY(n, row, col)))
    }

    /** A full site is open. */
    lemma FullSitesAreOpen(row: int, col: int)
      requires Valid() && IsFull(row, col) == Success(true)
      ensures IsOpen(row, col) == Success(true)
    {
      assert Connected(connectedSites, IndexFromXY(n, row, col), topElement);
    }

    /** percolates: the virtual top and bottom elements are connected, which
        happens exactly when some site of the bottom row is full. */
    function Percolates(): (r: bool)
      reads this, openedSites
      requires Valid()
      ensures r <==> exists col :: 1 <= col <= n && IsFull(n, col) == Success(true)
    {
      TopBottomConnectedIffBottomFull();
      Connected(connectedSites, topElement, bottomElement)
    }

    /** The virtual top reaches the virtual bottom exactly through a full
        site of the bottom row. */
    lemma TopBottomConnectedIffBottomFull()
      requires Valid()
      ensures Connected(connectedSites, topElement, bottomElement) <==>
                exists col :: 1 <= col <= n && IsFull(n, col) == Success(true)
    {
      if Connected(connectedSites, topElement, bottomElement) {
        assert Connected(connectedSites, topElement, bottomElement);
        var a :| 0 <= a < |connectedSites| && totalSites - n <= a < totalSites
                 && Connected(connectedSites, a, bottomElement);
        IndexOfSite(n, a);
        SiteRowBounds(n, a);
        assert IsFull(n, ColOf(n, a)) == Success(true);
      }
      if col :| 1 <= col <= n && IsFull(n, col) == Success(true) {
        var site := IndexFromXY(n, n, col);
        RowsOfSite(n, col);
        assert !Isolated(connectedSites, site) by {
          assert Connected(connectedSites, site, topElement);
        }
      }
    }

    /** numberOfOpenSites: the number of open flags. */
    function NumberOfOpenSites(): (k: int)
      reads this, openedSites
      requires Valid()
      ensures k == CountOpen(openedSites[..]) && 0 <= k <= totalSites
    {
      numberOfOpenSites
    }

    /** open: refuses positions off the grid; does nothing to an open site;
        otherwise opens the site, counts it, and unions it with the virtual
        top (top row), the virtual bottom (bottom row) and each open
        neighbour, in the order left, right, up, down. */
    method Open(row: int, col: int) returns (r: Outcome)
      requires Valid()
      modifies this, openedSites
      ensures Valid()
      ensures ArgsOutOfBounds(n, row, col) ==>
                r == Fail(IllegalArgument) && unchanged(this, openedSites)
      ensures !ArgsOutOfBounds(n, row, col) ==> r == Pass && IsOpen(row, col) == Success(true)
      ensures !ArgsOutOfBounds(n, row, col) && old(openedSites[IndexFromXY(n, row, col)]) ==>
                unchanged(this, openedSites)
      ensures !ArgsOutOfBounds(n, row, col) && !old(openedSites[IndexFromXY(n, row, col)]) ==>
                var site := IndexFromXY(n, row, col);
                && (forall j :: 0 <= j < totalSites ==> openedSites[j] == (j == site || old(openedSites[j])))
                && numberOfOpenSites == old(numberOfOpenSites) + 1
                && connectedSites == UnionAll(UnionAll(old(connectedSites), site, TopBottom(site)),
                                              site, OpenNeighbors(GetNeighbors(n, row, col), openedSites[..]))
    {
      if ArgsOutOfBounds(n, row, col) {
        return Fail(IllegalArgument);
      }
      if IsOpen(row, col).value {
        return Pass;
      }
      var site := IndexFromXY(n, row, col);
      ghost var uf, before := connectedSites, openedSites[..];
      MarkOpen(site);
      UnionVirtual(site);
      UnionOpenNeighbors(site, row, col);
      OpenKeepsBottomJoined(uf, row, col, before, openedSites[..], connectedSites);
      return Pass;
    }

    /** The first step of open: the site's flag is set and counted. */
    method MarkOpen(site: int)
      requires Valid() && 0 <= site < totalSites && !openedSites[site]
      modifies this, openedSites
      ensures forall j :: 0 <= j < totalSites ==> openedSites[j] == (j == site || old(openedSites[j]))
      ensures numberOfOpenSites == old(numberOfOpenSites) + 1 == CountOpen(openedSites[..])
      ensures connectedSites == old(connectedSites)
      ensures forall c :: 0 <= c < totalSites && !openedSites[c] ==> Isolated(connectedSites, c)
    {
      openedSites[site] := true;
      numberOfOpenSites := numberOfOpenSites + 1;
      CountOpenAfter(old(openedSites[..]), openedSites[..], site);
    }

    /** The two conditional unions of open with the virtual top and bottom
        elements. */
    method UnionVirtual(site: int)
      requires n > 0 && totalSites == n * n && openedSites.Length == totalSites
      requires topElement == totalSites && bottomElement == totalSites + 1
      requires |connectedSites| == totalSites + 2
      requires 0 <= site < totalSites && openedSites[site]
      requires forall c :: 0 <= c < totalSites && !openedSites[c] ==> Isolated(connectedSites, c)
      modifies this
      ensures numberOfOpenSites == old(numberOfOpenSites)
      ensures connectedSites == UnionAll(old(connectedSites), site, TopBottom(site))
      ensures forall c :: 0 <= c < totalSites && !openedSites[c] ==> Isolated(connectedSites, c)
    {
      var uf := connectedSites;
      if IsTopRow(site) {
        uf := Union(uf, site, topElement);
      }
      if IsBottomRow(site) {
        uf := Union(uf, site, bottomElement);
      }
      UnionTopBottom(connectedSites, site, uf);
      UnionsKeepBlockedIsolated(connectedSites, site, TopBottom(site), openedSites[..]);
      connectedSites := uf;
    }

    /** The loop at the end of open: unions the newly opened site with each
        neighbour that is on the grid and open. */
    method UnionOpenNeighbors(site: int, row: int, col: int)
      requires n > 0 && totalSites == n * n && openedSites.Length == totalSites
      requires |connectedSites| == totalSites + 2
      requires site == IndexFromXY(n, row, col) && 0 <= site < totalSites && openedSites[site]
      requires forall c :: 0 <= c < totalSites && !openedSites[c] ==> Isolated(connectedSites, c)
      modifies this
      ensures numberOfOpenSites == old(numberOfOpenSites)
      ensures connectedSites == UnionAll(old(connectedSites), site,
                                         OpenNeighbors(GetNeighbors(n, row, col), openedSites[..]))
      ensures forall c :: 0 <= c < totalSites && !openedSites[c] ==> Isolated(connectedSites, c)
    {
      ghost var open := openedSites[..];
      var neighbors := GetNeighbors(n, row, col);
      var uf := connectedSites;
      for k := 0 to |neighbors|
        modifies {}
        invariant |uf| == totalSites + 2
        invariant uf == UnionAll(old(connectedSites), site, OpenNeighbors(neighbors[..k], open))
      {
        var neighbor := neighbors[k];
        UnionAllOpenStep(old(connectedSites), site, neighbors, open, k);
        if neighbor == IndexOutOfBounds {
          continue;
        }
        if openedSites[neighbor] {
          uf := Union(uf, site, neighbor);
        }
      }
      assert neighbors[..|neighbors|] == neighbors;
      UnionsKeepBlockedIsolated(old(connectedSites), site, OpenNeighbors(neighbors, open), open);
      connectedSites := uf;
    }

    /** The two conditional unions at the start of open are the unions with
        TopBottom(site). */
    lemma UnionTopBottom(uf: Partition, site: int, result: Partition)
      requires topElement == totalSites && bottomElement == totalSites + 1
      requires |uf| == totalSites + 2 && 0 <= site < totalSites
      requires var mid := if IsTopRow(site) then Union(uf, site, topElement) else uf;
               result == if IsBottomRow(site) then Union(mid, site, bottomElement) else mid
      ensures result == UnionAll(uf, site, TopBottom(site))
    {
      if IsTopRow(site) && IsBottomRow(site) {
        assert TopBottom(site) == [topElement, bottomElement];
        UnionAllPair(uf, site, topElement, bottomElement);
      } else if IsTopRow(site) {
        assert TopBottom(site) == [topElement];
        UnionAllSingle(uf, site, topElement);
      } else if IsBottomRow(site) {
        assert TopBottom(site) == [bottomElement];
        UnionAllSingle(uf, site, bottomElement);
      } else {
        assert TopBottom(site) == [];
      }
    }

    /** A site in the top or bottom row is joined to the virtual site of
        that row by the unions open issues. */
    lemma VirtualJoined(uf: Partition, row: int, col: int, open: seq<bool>, v: int)
      requires n > 0 && totalSites == n * n && topElement == totalSites && bottomElement == totalSites + 1
      requires !ArgsOutOfBounds(n, row, col) && |uf| == totalSites + 2 && |open| == totalSites
      requires (row == 1 && v == topElement) || (row == n && v == bottomElement)
      ensures var site := IndexFromXY(n, row, col);
              Connected(UnionAll(UnionAll(uf, site, TopBottom(site)),
                                 site, OpenNeighbors(GetNeighbors(n, row, col), open)), site, v)
    {
      var site := IndexFromXY(n, row, col);
      var tb := TopBottom(site);
      RowBounds(n, row, col);
      assert v in tb;
      JoinedThroughBothRounds(uf, site, tb, OpenNeighbors(GetNeighbors(n, row, col), open), v);
    }

    /** After opening a blocked site, it is connected to each open neighbour,
        to the virtual top if it is in the top row and to the virtual bottom
        if it is in the bottom row. */
    lemma OpenedSiteConnections(uf: Partition, row: int, col: int, open: seq<bool>, result: Partition)
      requires n > 0 && totalSites == n * n && topElement == totalSites && bottomElement == totalSites + 1
      requires !ArgsOutOfBounds(n, row, col) && |uf| == totalSites + 2 && |open| == totalSites
      requires var site := IndexFromXY(n, row, col);
               result == UnionAll(UnionAll(uf, site, TopBottom(site)),
                                  site, OpenNeighbors(GetNeighbors(n, row, col), open))
      ensures var site := IndexFromXY(n, row, col);
              && (forall t :: t in GetNeighbors(n, row, col) && 0 <= t < totalSites && open[t] ==>
                    Connected(result, site, t))
              && (row == 1 ==> Connected(result, site, topElement))
              && (row == n ==> Connected(result, site, bottomElement))
    {
      var site := IndexFromXY(n, row, col);
      OpenNeighborsConnected(UnionAll(uf, site, TopBottom(site)), site, GetNeighbors(n, row, col), open);
      if row == 1 {
        VirtualJoined(uf, row, col, open, topElement);
      }
      if row == n {
        VirtualJoined(uf, row, col, open, bottomElement);
      }
    }
  
    /** Opening a blocked site keeps the virtual bottom joined to the open
        sites of the bottom row and anchored in that row. */
    lemma OpenKeepsBottomJoined(uf: Partition, row: int, col: int, before: seq<bool>, after: seq<bool>,
                                result: Partition)
      requires n > 0 && totalSites == n * n && topElement == totalSites && bottomElement == totalSites + 1
      requires !ArgsOutOfBounds(n, row, col) && |uf| == totalSites + 2
      requires |before| == totalSites && |after| == totalSites
      requires var site := IndexFromXY(n, row, col);
               forall j :: 0 <= j < totalSites ==> after[j] == (j == site || before[j])
      requires var site := IndexFromXY(n, row, col);
               result == UnionAll(UnionAll(uf, site, TopBottom(site)),
                                  site, OpenNeighbors(GetNeighbors(n, row, col), after))
      requires BottomJoined(uf, before)
      ensures BottomJoined(result, after)
    {
      OpenKeepsBottomAnchored(uf, row, col, after);
      OpenKeepsBottomRowJoined(uf, row, col, before, after);
    }

    /** The unions of open keep the virtual bottom anchored in the bottom
        row: only a bottom-row site is ever united with it. */
    lemma OpenKeepsBottomAnchored(uf: Partition, row: int, col: int, after: seq<bool>)
      requires n > 0 && totalSites == n * n && topElement == totalSites && bottomElement == totalSites + 1
      requires !ArgsOutOfBounds(n, row, col) && |uf| == totalSites + 2 && |after| == totalSites
      requires Anchored(uf, bottomElement, totalSites - n, totalSites)
      ensures var site := IndexFromXY(n, row, col);
              Anchored(UnionAll(UnionAll(uf, site, TopBottom(site)),
                                site, OpenNeighbors(GetNeighbors(n, row, col), after)),
                       bottomElement, totalSites - n, totalSites)
    {
      var site := IndexFromXY(n, row, col);
      var mid := UnionAll(uf, site, TopBottom(site));
      var nbs := OpenNeighbors(GetNeighbors(n, row, col), after);
      VirtualUnionsKeepAnchored(uf, site);
      assert Elements(mid, nbs) && bottomElement !in nbs by {
        forall i | 0 <= i < |nbs| ensures 0 <= nbs[i] < totalSites {
        }
      }
      UnionAllKeepsAnchored(mid, site, nbs, bottomElement, totalSites - n, totalSites);
    }

    /** The virtual unions keep the virtual bottom anchored in the bottom
        row. */
    lemma VirtualUnionsKeepAnchored(uf: Partition, site: int)
      requires n > 0 && topElement == totalSites && bottomElement == totalSites + 1
      requires 0 <= site < totalSites && |uf| == totalSites + 2
      requires Anchored(uf, bottomElement, totalSites - n, totalSites)
      ensures Anchored(UnionAll(uf, site, TopBottom(site)), bottomElement, totalSites - n, totalSites)
    {
      var tb := TopBottom(site);
      assert bottomElement in tb ==> totalSites - n <= site < totalSites;
      UnionAllKeepsAnchored(uf, site, tb, bottomElement, totalSites - n, totalSites);
    }

    /** After open, every open site of the bottom row is joined to the
        virtual bottom: the new one by its virtual union, the others since
        unions only merge. */
    lemma OpenKeepsBottomRowJoined(uf: Partition, row: int, col: int, before: seq<bool>, after: seq<bool>)
      requires n > 0 && totalSites == n * n && topElement == totalSites && bottomElement == totalSites + 1
      requires !ArgsOutOfBounds(n, row, col) && |uf| == totalSites + 2
      requires |before| == totalSites && |after| == totalSites
      requires var site := IndexFromXY(n, row, col);
               forall j :: 0 <= j < totalSites ==> after[j] == (j == site || before[j])
      requires forall s :: 0 <= s < totalSites && IsBottomRow(s) && before[s] ==> Connected(uf, s, bottomElement)
      ensures var site := IndexFromXY(n, row, col);
              var result := UnionAll(UnionAll(uf, site, TopBottom(site)),
                                     site, OpenNeighbors(GetNeighbors(n, row, col), after));
              forall s :: 0 <= s < totalSites && IsBottomRow(s) && after[s] ==> Connected(result, s, bottomElement)
    {
      var site := IndexFromXY(n, row, col);
      var tb := TopBottom(site);
      var nbs := OpenNeighbors(GetNeighbors(n, row, col), after);
      var mid := UnionAll(uf, site, tb);
      forall s | 0 <= s < totalSites && IsBottomRow(s) && after[s]
        ensures Connected(UnionAll(mid, site, nbs), s, bottomElement)
      {
        if s == site {
          IndexRoundTrip(n, row, col);
          VirtualJoined(uf, row, col, after, bottomElement);
        } else {
          UnionAllConnects(uf, site, tb, s, bottomElement);
          UnionAllConnects(mid, site, nbs, s, bottomElement);
        }
      }
    }
  }
}
