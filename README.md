# Algs1 exercises, modelled and verified in Dafny

This project models six of the programming exercises of an algorithms course
(the Algs1 repository) and proves what each of them promises. Each exercise
becomes one Dafny module:

- `KdTrees`: the 2-d tree over points of the unit square (Week5 `KdTree`).
  Nodes live in an arena (`seq<Node>`) whose positions stand for object
  references, with -1 for `null`. Insertion walks down the tree, choosing a
  side by a strict comparison on the node's axis (ties go right), and links a
  new leaf. A ghost sequence of regions records, for every node, the part of
  the unit square its subtree owns. From it the model proves:
  - every stored point lies in the rectangle of each subtree root above it;
  - `contains` finds exactly the stored points;
  - `range` returns exactly the stored points inside the query rectangle, and
    pruning by `intersects` loses none;
  - `nearest` returns a closest stored point, and pruning by rectangle
    distance loses none.
- `PointSets`: the brute-force point set (Week5 `PointSET`). Its `range` and
  `nearest` scan the points in their natural order. It is the reference
  against which the 2-d tree's answers are stated.
- `Percolations`: the percolation grid (Week1 `Percolation`). It keeps a
  `bool` array of open sites, a count of open sites and a union-find structure
  over the n·n sites plus a virtual top and a virtual bottom. `UnionFind`
  gives the union-find structure by its contract, as a partition that `union`
  merges. The model proves that only open sites are full, and that the grid
  percolates exactly when some site of the bottom row is full.
- `Boards`: the n-puzzle board (Week4 `Board`), over a two-dimensional
  array. It covers the goal layout, the Hamming and Manhattan scores, the goal
  test, equality, the twin and the neighbours reached by sliding a tile into
  the blank.
- `Deques`: the doubly linked deque (Week2 `Deque`), with its node class,
  pointer rewiring and iterator.
- `RandomizedQueues`: the resizing-array randomized queue (Week2
  `RandomizedQueue`). Random choices are parameters: `dequeue` and `sample`
  take the drawn index, and the iterator takes the draws of its shuffle.

`Geometry` holds the contracts of the library types `Point2D` and `RectHV`
over exact reals. `Wrappers` holds the result types: a thrown exception is a
`Failure`/`Fail` value, and a `null` argument is `None`. `Arithmetic` holds
two facts about division.

The doc comments of `Percolation` number rows and columns from 0 to n-1, but
the code accepts 1 to n (`argsOutOfBounds`, `indexFromXY`). The model follows
the code.

## Model

| member | source | states |
|---|---|---|
| KdTrees.Flip | Week5/src/KdTree.java:115-120 | a child's orientation always differs from its parent's |
| KdTrees.DetectSubtree | Week5/src/KdTree.java:153-163 | a point goes left exactly when its coordinate on the node's axis is strictly smaller; ties go right |
| KdTrees.GetChildLinks | Week5/src/KdTree.java:165-170 | getChild gives null or a later node that names this one as its parent, hangs on the side asked for, has the flipped orientation and the rectangle rectFor cuts for that side |
| KdTrees.RectFor | Week5/src/KdTree.java:129-150 | when the parent's point lies in its rectangle, the child's rectangle is well formed and holds exactly the points of the parent's rectangle on the child's side of the split line, the line included |
| KdTrees.RectForPartition | Week5/src/KdTree.java:129-150 | the two child rectangles lie inside the parent's, cover it, meet only on the split line and are bounded by the split coordinate on the parent's axis |
| KdTrees.CutSide | Week5/src/KdTree.java:129-163 | a child's region is exactly the part of its parent's region that detectSubtree sends to that child |
| KdTrees.SubPointsInRegion | Week5/src/KdTree.java:98-124 | every point stored in a subtree lies in the region, and so in the rectangle, of the subtree's root |
| KdTrees.SubPointsStored | Week5/src/KdTree.java:47-59 | the points of a subtree are among the tree's points |
| KdTrees.SubtreeUnderRoot | Week5/src/KdTree.java:98-124 | every node hangs under the root |
| KdTrees.RootHoldsAll | Week5/src/KdTree.java:85-124 | the root's subtree holds exactly the inserted points |
| KdTrees.SearchStep | Week5/src/KdTree.java:178-186 | a point stored below a node, other than the node's own, is stored below the child detectSubtree chooses |
| KdTrees.AttachKeepsValid | Week5/src/KdTree.java:106-122 | linking a new leaf where the search ended keeps alternation, the rectangle cuts and the region invariant |
| KdTrees.AttachPoints | Week5/src/KdTree.java:106-122 | linking a leaf adds exactly its point and changes no existing node's point, orientation, rectangle or parent |
| KdTrees.SingleNodePoints | Week5/src/KdTree.java:89-94 | the first insert's root holds exactly the inserted point |
| KdTrees.KdTree.constructor | Week5/src/KdTree.java:68-70 | a new tree is valid and empty |
| KdTrees.KdTree.IsEmpty | Week5/src/KdTree.java:72-74 | empty exactly when there is no root |
| KdTrees.KdTree.Size | Week5/src/KdTree.java:76-78 | the number of distinct points, at most the number of nodes, 0 exactly when empty |
| KdTrees.KdTree.Insert | Week5/src/KdTree.java:80-125 | null throws and changes nothing; otherwise the point joins the de-duplicated set, a new node holding it is always linked, even for a repeated point, the first node is the VERTICAL root over the unit square, and the tree stays valid |
| KdTrees.KdTree.Contains | Week5/src/KdTree.java:172-187 | null throws; otherwise true exactly when an equal point was inserted |
| KdTrees.KdTree.RangeFrom | Week5/src/KdTree.java:257-269 | the recursive step adds exactly the subtree's points inside the query |
| KdTrees.KdTree.PrunedSubtreeMissesQuery | Week5/src/KdTree.java:261-267 | a child whose rectangle does not intersect the query holds no point inside it |
| KdTrees.KdTree.Range | Week5/src/KdTree.java:243-280 | null throws; otherwise exactly the stored points inside the rectangle, boundary included, as a set |
| KdTrees.KdTree.SearchSubtree | Week5/src/KdTree.java:357-359 | an eligible child is never null |
| KdTrees.KdTree.SkippedSubtreeIsFar | Week5/src/KdTree.java:357-359 | a child that searchSubtree rejects holds no point closer than the best distance |
| KdTrees.KdTree.NearestFrom | Week5/src/KdTree.java:306-349 | the best never gets farther, is replaced only by a strictly closer node, and ends no farther than any point of the subtree |
| KdTrees.KdTree.Nearest | Week5/src/KdTree.java:288-353 | null throws; an empty tree gives null; otherwise a stored point no farther from the query than any stored point |
| KdTrees.RangeSplit | Week5/src/KdTree.java:257-269 | a subtree's points in range are those of its root and of its two child subtrees |
| KdTrees.AllPointsBound | Week5/src/KdTree.java:76-78 | the distinct points number at most the nodes, and at least one when there is a node |
| KdTrees.FivePointTree | Week5/src/KdTree.java:382-387 | inserting the five test points gives a valid tree holding exactly them |
| KdTrees.DuplicateScenario | Week5/src/KdTree.java:361-381 | after inserting an equal point twice, the size is 1, the point is found and the tree has two nodes |
| KdTrees.RangeScenario | Week5/src/KdTree.java:410-438 | the three test rectangles find {b, d}, {a, c} and nothing |
| KdTrees.TestRanges | Week5/src/KdTree.java:423-425 | the in-range sets of the five test points for the three test rectangles |
| KdTrees.NearestScenario | Week5/src/KdTree.java:440-459 | the queries at c, at (1, 1) and at b find c, e and b |
| KdTrees.NearestIsUnique | Week5/src/KdTree.java:453-458 | each test query has exactly one closest test point |
| Geometry.DistSqNonNegative | Week5/src/KdTree.java:307-309 | squared distances are non-negative and zero exactly between equal points |
| Geometry.RectDistSqZeroIffContains | Week5/src/KdTree.java:357-359 | a point's distance to a rectangle is zero exactly when the rectangle contains it |
| Geometry.RectDistSqBelowMembers | Week5/src/KdTree.java:357-359 | no point of a rectangle is closer to the query than the rectangle |
| Geometry.IntersectsIffCommonPoint | Week5/src/KdTree.java:261-267 | two well-formed rectangles intersect exactly when they share a point |
| Geometry.CommonPointIntersects | Week5/src/KdTree.java:261-267 | rectangles sharing a point intersect |
| Geometry.UnitSquareDistSq | Week5/src/PointSET.java:72 | two points of the unit square are at distance at most the square root of 2, below PointSET's starting bound of 2 |
| Geometry.PrecedesTotalOrder | Week5/src/PointSET.java:14 | the natural order of points is total, antisymmetric and transitive |
| Geometry.FirstExists | Week5/src/PointSET.java:50-56 | a non-empty point set has a first point in the natural order |
| PointSets.NearestWithinUnique | Week5/src/PointSET.java:67-82 | nearest's answer is determined by the set and the query |
| PointSets.AgreesWithKdTree | Week5/src/PointSET.java:67-82 | over the unit square, PointSET's nearest is exactly as close as the 2-d tree's nearest |
| PointSets.PointSET.constructor | Week5/src/PointSET.java:16-18 | a new set is empty |
| PointSets.PointSET.IsEmpty | Week5/src/PointSET.java:20-22 | empty exactly when no point is stored |
| PointSets.PointSET.Size | Week5/src/PointSET.java:24-26 | the size is 0 exactly when the set is empty |
| PointSets.PointSET.Insert | Week5/src/PointSET.java:28-33 | null throws and changes nothing; otherwise the point is added, once |
| PointSets.PointSET.ContainsPoint | Week5/src/PointSET.java:35-40 | null throws; otherwise true exactly when the point is stored |
| PointSets.PointSET.Range | Week5/src/PointSET.java:44-64 | null throws; otherwise exactly the stored points inside the rectangle, boundary included |
| PointSets.PointSET.Nearest | Week5/src/PointSET.java:67-82 | null throws; otherwise null when no point is closer than 2, else a closest point, the first in the natural order among equally close ones |
| PointSets.DuplicateScenario | Week5/src/PointSET.java:86-102 | inserting an equal point twice gives size 1 |
| PointSets.RangeScenario | Week5/src/PointSET.java:104-114 | the test rectangle finds (0.3, 0.3) and (0.3, 0.6) |
| PointSets.MainRangeAnswer | Week5/src/PointSET.java:105-111 | the in-range set of the six test points |
| UnionFind.Singletons | Week1/src/Percolation.java:80 | a new structure connects each element only to itself |
| UnionFind.Relabel | Week1/src/Percolation.java:107-119 | every occurrence of one label is replaced by the other, and nothing else changes |
| UnionFind.UnionConnects | Week1/src/Percolation.java:107-119 | union(a, b) adds the pair and its transitive consequences to the connection relation, and nothing more |
| UnionFind.Union | Week1/src/Percolation.java:107-119 | after union(a, b), a and b are connected; the number of elements is kept |
| UnionFind.UnionAllKeepsAnchored | Week1/src/Percolation.java:106-121 | unions of a site other than v with targets keep v's block holding an element of a given range whenever it holds anything besides v, provided v is a target only when the site is in that range |
| UnionFind.UnionAllConnects | Week1/src/Percolation.java:113-121 | after the unions, the site is connected to every target, and connected pairs stay connected |
| UnionFind.UnionAllKeepsIsolated | Week1/src/Percolation.java:113-121 | an element that no union names and that is connected to nothing else stays so |
| Percolations.IndexFromXY | Week1/src/Percolation.java:228-233 | an out-of-grid position gives -1; an in-grid one gives an index in [0, n·n) |
| Percolations.InGridIffSite | Week1/src/Percolation.java:244-246 | a position passes argsOutOfBounds exactly when it is the row and column of one of the n·n sites |
| Percolations.IndexRoundTrip | Week1/src/Percolation.java:232 | the index of (row, col) gives back row and col |
| Percolations.IndexOfSite | Week1/src/Percolation.java:228-233 | every site index is the index of its own row and column |
| Percolations.RowBounds | Week1/src/Percolation.java:183-196 | an index is below n exactly in row 1, and in [n·n-n, n·n) exactly in row n |
| Percolations.GetNeighbors | Week1/src/Percolation.java:209-216 | four entries, each -1 or a site index |
| Percolations.NeighborsAreAdjacent | Week1/src/Percolation.java:209-216 | a site is among the neighbours of (row, col) exactly when it is orthogonally adjacent to it |
| Percolations.CountPrefixAfter | Week1/src/Percolation.java:103-104 | opening one blocked entry adds one to the count of every prefix that holds it |
| Percolations.CountOpenAfter | Week1/src/Percolation.java:103-104 | opening one blocked site adds exactly one to the open count |
| Percolations.CountPrefixNone | Week1/src/Percolation.java:81-82 | an all-blocked grid counts zero open sites |
| Percolations.OpenNeighbors | Week1/src/Percolation.java:113-121 | the neighbours open unions with are open sites, and every open neighbour is among them |
| Percolations.OpenNeighborsConnected | Week1/src/Percolation.java:113-121 | after the neighbour unions, the site is connected to each open neighbour |
| Percolations.JoinedThroughBothRounds | Week1/src/Percolation.java:106-121 | a connection made with a virtual element survives the later neighbour unions |
| Percolations.UnionAllOpenStep | Week1/src/Percolation.java:114-120 | one more neighbour examined adds one union exactly when it is on the grid and open |
| Percolations.UnionsKeepBlockedIsolated | Week1/src/Percolation.java:106-121 | the unions open makes leave every blocked site connected to nothing else |
| Percolations.Percolation.constructor | Week1/src/Percolation.java:72-83 | every site blocked, no open site, nothing connected |
| Percolations.Percolation.Create | Week1/src/Percolation.java:72-83 | n ≤ 0 throws; otherwise a valid empty grid that does not percolate |
| Percolations.Percolation.RowsOfSite | Week1/src/Percolation.java:183-196 | isTopRow holds exactly in row 1, isBottomRow exactly in row n |
| Percolations.Percolation.IsTopRow | Week1/src/Percolation.java:183-185 | holds exactly for the flat indices of the positions of row 1 |
| Percolations.Percolation.IsBottomRow | Week1/src/Percolation.java:194-196 | holds exactly for the flat indices of the positions of row n |
| Percolations.Percolation.Percolates | Week1/src/Percolation.java:129-131 | the grid percolates exactly when some site of the bottom row is full |
| Percolations.Percolation.TopBottomConnectedIffBottomFull | Week1/src/Percolation.java:129-131 | the virtual top is connected to the virtual bottom exactly when it is connected to an open site of the bottom row |
| Percolations.Percolation.OpenKeepsBottomJoined | Week1/src/Percolation.java:102-121 | opening a blocked site keeps every open bottom-row site joined to the virtual bottom, and keeps a bottom-row site in the virtual bottom's block whenever that block holds anything else |
| Percolations.Percolation.OpenKeepsBottomAnchored | Week1/src/Percolation.java:106-121 | after open's unions the virtual bottom's block still holds a bottom-row site whenever it holds anything else |
| Percolations.Percolation.VirtualUnionsKeepAnchored | Week1/src/Percolation.java:106-111 | the virtual unions keep a bottom-row site in the virtual bottom's block whenever that block holds anything else |
| Percolations.Percolation.OpenKeepsBottomRowJoined | Week1/src/Percolation.java:102-121 | after open, every open site of the bottom row is joined to the virtual bottom |
| Percolations.Percolation.IsOpen | Week1/src/Percolation.java:142-147 | an out-of-grid position throws; otherwise the site's open flag |
| Percolations.Percolation.IsFull | Week1/src/Percolation.java:169-174 | an out-of-grid position throws; otherwise whether the site is connected to the virtual top |
| Percolations.Percolation.FullSitesAreOpen | Week1/src/Percolation.java:169-174 | a full site is open |
| Percolations.Percolation.NumberOfOpenSites | Week1/src/Percolation.java:154-156 | the number of open flags, between 0 and n·n |
| Percolations.Percolation.Open | Week1/src/Percolation.java:94-122 | an out-of-grid position throws and changes nothing; an open site changes nothing; otherwise exactly that flag is set, the count grows by one, and the union-find is the unions with the virtual elements and then with the open neighbours |
| Percolations.Percolation.MarkOpen | Week1/src/Percolation.java:102-104 | the flag is set, the count grows by one, and blocked sites stay isolated |
| Percolations.Percolation.UnionVirtual | Week1/src/Percolation.java:106-111 | the union-find after the two conditional unions is the unions with the site's virtual elements |
| Percolations.Percolation.UnionOpenNeighbors | Week1/src/Percolation.java:113-121 | the union-find after the loop is the unions with the open neighbours, in order |
| Percolations.Percolation.UnionTopBottom | Week1/src/Percolation.java:106-111 | the two conditional unions are the unions with the virtual elements of the site's rows |
| Percolations.Percolation.VirtualJoined | Week1/src/Percolation.java:106-111 | a top-row site ends connected to the virtual top, a bottom-row site to the virtual bottom |
| Percolations.Percolation.OpenedSiteConnections | Week1/src/Percolation.java:102-121 | after open, the site is connected to every open neighbour and to the virtual element of its row |
| Boards.GridExt | Week4/src/Board.java:139-161 | two square grids of one size with equal cells are equal |
| Boards.GoalValue | Week4/src/Board.java:85-90 | on the grid, the goal tile is below n·n, zero exactly at the last cell, and otherwise tile v with goal cell ((v-1) div n, (v-1) mod n) |
| Boards.GoalCellOfTile | Week4/src/Board.java:85-90 | every tile 1..n·n-1 has exactly one goal cell, ((v-1) div n, (v-1) mod n) |
| Boards.GoalRowCol | Week4/src/Board.java:62-66 | Java's truncating division and remainder of v-1 by n agree with Euclidean ones for v ≥ 1 |
| Boards.RowScoreZero | Week4/src/Board.java:27-43 | a row prefix scores zero exactly when each of its cells scores zero |
| Boards.GridScoreZero | Week4/src/Board.java:27-43 | a prefix of rows scores zero exactly when each of its rows does |
| Boards.ScoreZero | Week4/src/Board.java:27-72 | a score is zero exactly when every cell scores zero |
| Boards.HammingZeroIff | Week4/src/Board.java:27-43 | hamming is zero exactly when every non-zero tile sits at its goal value |
| Boards.GoalScoresZero | Week4/src/Board.java:27-72 | the goal board scores zero under hamming and manhattan |
| Boards.ManhattanCellPositive | Week4/src/Board.java:47-72 | a misplaced tile contributes at least 1 to manhattan |
| Boards.RowScoreBelow | Week4/src/Board.java:27-72 | per row, hamming is at most manhattan |
| Boards.GridScoreBelow | Week4/src/Board.java:27-72 | per prefix of rows, hamming is at most manhattan |
| Boards.HammingAtMostManhattan | Week4/src/Board.java:27-72 | hamming is at most manhattan, and one is zero exactly when the other is |
| Boards.SetAt | Week4/src/Board.java:105-121 | writing one cell changes that cell only |
| Boards.Swap | Week4/src/Board.java:105-121 | swapping two cells exchanges their values and leaves every other cell |
| Boards.TwinGrid | Week4/src/Board.java:96-123 | the twin exchanges the tiles of two distinct cells of the first two rows and keeps every other cell |
| Boards.TwinProperties | Week4/src/Board.java:96-123 | on a board with one blank, the exchanged tiles are both non-blank, the blank stays where it was, and the twin of the twin is the board |
| Boards.SlideAt | Week4/src/Board.java:171-197 | a slide puts 0 at the tile's cell, the tile at the blank's cell, and changes nothing else |
| Boards.Slide | Week4/src/Board.java:171-197 | sliding a tile into the empty cell exchanges the two cells |
| Boards.Moves | Week4/src/Board.java:168-198 | a blank cell yields one board per in-grid direction; another cell yields none |
| Boards.ReverseMembers | Week4/src/Board.java:164 | a stack's yield holds the same boards as were pushed |
| Boards.ReversePush | Week4/src/Board.java:164 | one more push puts the board first in the stack's yield |
| Boards.ReverseAppend | Week4/src/Board.java:164 | the stack yields a later batch of pushes before an earlier one |
| Boards.PushesStep | Week4/src/Board.java:166-199 | the pushes so far, extended by one cell, gain that cell's moves |
| Boards.PushesRowStart | Week4/src/Board.java:166-199 | the pushes of a whole row extend the pushes of the rows before |
| Boards.SideMovesSound | Week4/src/Board.java:171-183 | the left and right pushes are slides into the blank |
| Boards.UpDownMovesSound | Week4/src/Board.java:185-197 | the upper and lower pushes are slides into the blank |
| Boards.MovesSound | Week4/src/Board.java:168-198 | every push for a cell is a slide into the blank |
| Boards.MovesComplete | Week4/src/Board.java:168-198 | every slide into the blank at a cell is among that cell's pushes |
| Boards.RowPushesSound | Week4/src/Board.java:167-199 | every push for a row prefix is a slide |
| Boards.RowPushesComplete | Week4/src/Board.java:167-199 | every slide into a blank of a row prefix is pushed |
| Boards.GridPushesSound | Week4/src/Board.java:166-200 | every push for a prefix of rows is a slide |
| Boards.GridPushesComplete | Week4/src/Board.java:166-200 | every slide into a blank of a prefix of rows is pushed |
| Boards.NeighborsAreSlides | Week4/src/Board.java:163-202 | the neighbours are exactly the boards that slide one tile into the blank |
| Boards.RowPushesCount | Week4/src/Board.java:167-199 | a row prefix pushes one board per direction of the blank if it holds the blank, else none |
| Boards.GridPushesCount | Week4/src/Board.java:166-200 | a prefix of rows pushes one board per direction of the blank if it holds the blank, else none |
| Boards.AllRowPushesCount | Week4/src/Board.java:166-200 | with one blank, only its row pushes boards |
| Boards.DirsBounds | Week4/src/Board.java:171-197 | a cell of a grid of side at least 2 has 2 to 4 in-grid directions |
| Boards.NeighborCount | Week4/src/Board.java:163-202 | with one blank there is one neighbour per in-grid direction: 2 to 4 when n ≥ 2 |
| Boards.DeepCopy | Week4/src/Board.java:125-137 | a fresh array holding the source's n-by-n cells |
| Boards.GoalTest | Week4/src/Board.java:74-83 | true exactly when every cell holds its goal value |
| Boards.Board.constructor | Week4/src/Board.java:17-21 | the board owns a fresh copy of the input's cells |
| Boards.Board.Dimension | Week4/src/Board.java:23-25 | n, the side of the grid |
| Boards.Board.IsGoal | Week4/src/Board.java:74-83 | true exactly on the goal layout |
| Boards.Board.Hamming | Week4/src/Board.java:27-43 | the number of non-zero tiles off their goal value |
| Boards.Board.Manhattan | Week4/src/Board.java:47-72 | the sum over non-zero misplaced tiles of the row and column distances to the goal cell |
| Boards.Board.Twin | Week4/src/Board.java:96-123 | for n ≥ 2, a fresh board with two non-blank tiles of the first two rows swapped; for n < 2, the index error |
| Boards.Board.Equals | Week4/src/Board.java:139-161 | true exactly when the other board is not null and has the same cells |
| Boards.Board.SlideInto | Week4/src/Board.java:171-197 | a fresh board whose grid is this one's with one tile slid into the blank |
| Boards.Board.PushWhen | Week4/src/Board.java:171-176 | pushes the slid board exactly when the guard holds |
| Boards.Board.PushSideMoves | Week4/src/Board.java:171-183 | pushes the left and right neighbours |
| Boards.Board.PushUpDownMoves | Week4/src/Board.java:185-197 | pushes the upper and lower neighbours |
| Boards.Board.PushMoves | Week4/src/Board.java:168-198 | pushes a cell's neighbours, none when the cell is not blank |
| Boards.Board.PushRow | Week4/src/Board.java:167-199 | pushes the neighbours of one row's blank cells |
| Boards.Board.Neighbors | Week4/src/Board.java:163-202 | the stack yields, last pushed first, exactly the slides into the blank, one per direction |
| Deques.Node.constructor | Week2/src/Deque.java:16-34 | a new node holds its item and no links |
| Deques.Node.SetNext | Week2/src/Deque.java:16-34 | sets next only |
| Deques.Node.SetPrev | Week2/src/Deque.java:16-34 | sets prev only |
| Deques.Deque.constructor | Week2/src/Deque.java:12-14 | a new deque is empty |
| Deques.Deque.LinkNodes | Week2/src/Deque.java:36-43 | links node1 forward to node2 and node2 back to node1, when present |
| Deques.Deque.UnlinkNode | Week2/src/Deque.java:45-54 | the node loses both links, and its neighbours lose their links to it |
| Deques.Deque.IsEmpty | Week2/src/Deque.java:56-58 | empty exactly when no item is held |
| Deques.Deque.Size | Week2/src/Deque.java:60-62 | the number of items |
| Deques.Deque.AddFirst | Week2/src/Deque.java:65-77 | null throws and changes nothing; otherwise the item goes in front |
| Deques.Deque.AddLast | Week2/src/Deque.java:80-92 | null throws and changes nothing; otherwise the item goes at the back |
| Deques.Deque.RemoveFirst | Week2/src/Deque.java:95-108 | an empty deque throws; otherwise the front item is returned and removed, and its node is unlinked |
| Deques.Deque.RemoveLast | Week2/src/Deque.java:111-124 | an empty deque throws; otherwise the back item is returned and removed, and its node is unlinked |
| Deques.Deque.Iterator | Week2/src/Deque.java:151-153 | a fresh iterator at the front |
| Deques.DequeIterator.constructor | Week2/src/Deque.java:129-131 | starts at the front |
| Deques.DequeIterator.HasNext | Week2/src/Deque.java:142-144 | items remain |
| Deques.DequeIterator.Next | Week2/src/Deque.java:133-140 | the next item front to back; throws when none remains |
| Deques.DequeIterator.Remove | Week2/src/Deque.java:146-148 | always unsupported |
| Deques.AddAndRemoveFirst | Week2/src/DequeTest.java:14-25 | items added at the front come back from the front last in, first out |
| Deques.AddAndRemoveLast | Week2/src/DequeTest.java:28-39 | items added at the back come back from the back last in, first out |
| Deques.MixedAddAndRemoves | Week2/src/DequeTest.java:42-57 | mixed adds at both ends then removes from the back give the expected order |
| Deques.SizeAndIsEmpty | Week2/src/DequeTest.java:60-77 | size and isEmpty follow the adds and removes |
| Deques.IterateAll | Week2/src/Deque.java:126-149 | iterating to the end yields the items front to back and leaves the deque valid |
| Deques.IteratorScenario | Week2/src/DequeTest.java:79-103 | iterating six added items yields them in order, size 6 |
| RandomizedQueues.IotaCount | Week2/src/RandomizedQueue.java:91-94 | the initial order holds each index below n once |
| RandomizedQueues.PermutationVisitsEachOnce | Week2/src/RandomizedQueue.java:90-97 | a shuffled order visits every index below n exactly once |
| RandomizedQueues.PickAppend | Week2/src/RandomizedQueue.java:99-106 | the items read along two orders one after the other are the two readings concatenated |
| RandomizedQueues.PickDropOne | Week2/src/RandomizedQueue.java:99-106 | dropping one index from an order drops its item from the multiset read |
| RandomizedQueues.DropMatching | Week2/src/RandomizedQueue.java:90-97 | removing matching entries keeps two orders permutations of each other |
| RandomizedQueues.PickSameMultiset | Week2/src/RandomizedQueue.java:99-106 | reading along two orders with the same multiset reads the same multiset of items |
| RandomizedQueues.PickIota | Week2/src/RandomizedQueue.java:91-94 | reading along the initial order reads the items in order |
| RandomizedQueues.PickPermutation | Week2/src/RandomizedQueue.java:90-106 | reading along a shuffled order reads every item exactly as often as it is held |
| RandomizedQueues.SwapRemove | Week2/src/RandomizedQueue.java:64-75 | one item fewer |
| RandomizedQueues.SwapRemoveItems | Week2/src/RandomizedQueue.java:64-75 | loses exactly the chosen item, the last item moves into its slot, the rest stay |
| RandomizedQueues.CapacityStaysInBounds | Week2/src/RandomizedQueue.java:43-45 | after an enqueue the item fits, and after a dequeue the capacity stays at least 2 and above the size |
| RandomizedQueues.Shuffle | Week2/src/RandomizedQueue.java:95 | shuffling keeps the array's multiset of indices |
| RandomizedQueues.RandomizedQueue.constructor | Week2/src/RandomizedQueue.java:16-20 | empty, capacity 2 |
| RandomizedQueues.RandomizedQueue.IsEmpty | Week2/src/RandomizedQueue.java:31-33 | empty exactly when no item is held |
| RandomizedQueues.RandomizedQueue.Size | Week2/src/RandomizedQueue.java:35-37 | the number of items |
| RandomizedQueues.RandomizedQueue.Enqueue | Week2/src/RandomizedQueue.java:39-47 | null throws and changes nothing; otherwise the item is appended, after doubling a full array |
| RandomizedQueues.RandomizedQueue.ResizeQueue | Week2/src/RandomizedQueue.java:49-58 | a fresh array of the new capacity with the first size items in order and empty slots after |
| RandomizedQueues.RandomizedQueue.Dequeue | Week2/src/RandomizedQueue.java:60-76 | an empty queue throws; otherwise returns the chosen item, moves the last into its slot, and halves the array when a quarter full |
| RandomizedQueues.RandomizedQueue.Sample | Week2/src/RandomizedQueue.java:78-84 | an empty queue throws; otherwise the chosen item, with no change |
| RandomizedQueues.RandomizedQueue.Iterator | Week2/src/RandomizedQueue.java:117-119 | a fresh iterator over a shuffled order, at its start |
| RandomizedQueues.RandomizedQueueIterator.constructor | Week2/src/RandomizedQueue.java:90-97 | the order is a shuffle of the indices below size |
| RandomizedQueues.RandomizedQueueIterator.HasNext | Week2/src/RandomizedQueue.java:108-110 | indices remain |
| RandomizedQueues.RandomizedQueueIterator.Next | Week2/src/RandomizedQueue.java:99-106 | the item at the next index of the shuffled order; throws when none remains |
| RandomizedQueues.RandomizedQueueIterator.Remove | Week2/src/RandomizedQueue.java:112-114 | always unsupported |
| RandomizedQueues.IterateAll | Week2/src/RandomizedQueue.java:86-115 | iterating to the end yields every item exactly as often as it is held |
| RandomizedQueues.EnqueueEight | Week2/src/RandomizedQueue.java:122-130 | eight enqueues hold the eight items in order, with capacity 8 |
| RandomizedQueues.EnqueueAndIterate | Week2/src/RandomizedQueue.java:121-136 | the iteration yields the eight items in some order, and the size stays 8 |
| RandomizedQueues.DequeueScenario | Week2/src/RandomizedQueue.java:60-76 | three dequeues return the chosen items, a fourth throws, and the array shrinks back to 2 |

## Left out

- Java `null` arguments are `None` values, thrown exceptions are `Failure`/`Fail` results, and a method that throws is shown to change nothing.
- `Point2D` and `RectHV` use exact reals. Distances are compared squared instead of as IEEE doubles with `Math.sqrt`. The square root is monotone, so every comparison the code makes comes out the same; rounding is not modelled.
- Java `int` overflow is not modelled. Sizes, indices and scores are unbounded integers.
- `KdTrees.KdTree.Insert` requires the point to lie in the unit square, as the class comment assumes, and this is what makes `Range` and `Nearest` exact. Outside the square the Java code does not model a 2-d tree:
  - Usually it stores the point under a rectangle that does not contain it. `range` and `nearest` then prune that node and can miss the point, while `contains` finds it. For example, after the root (0.5, 0.5), the point (2, 0.5) gets the rectangle [0.5, 1] × [0, 1], so a range query over [1.5, 2.5] × [0, 1] returns nothing.
  - When the cut would give an inverted rectangle, `RectHV`'s constructor throws. By then the node is already in `nodes` and linked to its parent, so the tree keeps a node without a rectangle.
- `KdTree.draw`, the `Pen` enum and `testInsert` draw with `StdDraw` and are not modelled. The other `main`/`test*` methods print; their expected values are stated as scenario methods.
- `toString` of `Board` and `RandomizedQueue` is debug text and is not modelled.
- `Solver`, `PercolationStats` and `Permutation` are clients that read input, draw random numbers or use floating point. They are not part of this model.
- `WeightedQuickUnionUF` is modelled by its contract, a partition merged by `union`, not by its weighted-tree code.
- The `TreeSet`s of `KdTree` and `PointSET` are Dafny sets. `PointSET`'s `range` and `nearest` scan in the natural order of points (y first, then x), as `TreeSet` does. Iterables are returned as sets, so their laziness and object identity are not modelled.
- `StdRandom` is replaced by parameters. `dequeue` and `sample` take the drawn index, and the iterator takes the draws of its Fisher–Yates shuffle. Fairness of the draws is not modelled.
- `KdTrees.DuplicateScenario`, `KdTrees.RangeScenario` and `KdTrees.NearestScenario` check the values the test methods print. The printing itself is not modelled.
- Using an iterator after its collection has changed is not modelled. The iterators require a valid collection at each call.
- Several long Java methods are split into helper methods or lemmas with their own contracts: `Percolation.open`, `Board.neighbors` and `KdTree.range`/`nearest` (whose local `Search` classes become recursive methods). They run the same steps in the same order.
- `Boards.Board.Equals` takes a `Board` or null. The `getClass` comparison with an object of another class is not modelled.
- `Boards.Board.Twin` for a board of side 0 or 1 is modelled as the index error Java would throw.
- `Boards.Board.constructor` requires the input's rows to be at least as long as there are rows. A ragged `int[][]` cannot be expressed as a Dafny `array2`.
- The `nodes` list of `Deques.Deque` and the `items` sequences of both queues are ghost. They state which nodes and values the linked and array structures hold.
