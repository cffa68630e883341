/** The maze grid of HeroQuest3D/Quest.cpp: a flat sequence of
    DefaultMazeWidth x DefaultMazeHeight cells indexed by `x + y * width`, the
    neighbour relation `assignNeighbors` builds over it, the invariants the
    carver keeps, and the wall/radius legality test `isLegalPosition`. */
module Grid {
  import opened Cells

  // HeroQuest3D/Quest.h: the dimensions every quest is built with, and the bounds
  // that assignNeighbors and removeWalls check against.
  const DefaultMazeWidth := 26
  const DefaultMazeHeight := 19
  const CellCount := 494

  /** The vector index of the cell in column `x`, row `y`. */
  function Index(x: int, y: int): (c: int)
  {
    x + y * DefaultMazeWidth
  }

  predicate InGrid(x: int, y: int)
  {
    0 <= x < DefaultMazeWidth && 0 <= y < DefaultMazeHeight
  }

  lemma IndexCoordinates(x: int, y: int)
    requires InGrid(x, y)
    ensures 0 <= Index(x, y) < CellCount
    ensures Index(x, y) % DefaultMazeWidth == x && Index(x, y) / DefaultMazeWidth == y
  {
  }

  lemma CoordinatesIndex(c: int)
    requires 0 <= c < CellCount
    ensures InGrid(c % DefaultMazeWidth, c / DefaultMazeWidth)
    ensures Index(c % DefaultMazeWidth, c / DefaultMazeWidth) == c
    ensures forall x, y :: InGrid(x, y) && Index(x, y) == c ==> x == c % DefaultMazeWidth && y == c / DefaultMazeWidth
  {
    forall x, y | InGrid(x, y) && Index(x, y) == c
      ensures x == c % DefaultMazeWidth && y == c / DefaultMazeWidth
    {
      IndexCoordinates(x, y);
    }
  }

  /** The cell that assignNeighbors links to side `side` of cell `c`, or
      NoNeighbor where that side lies on the grid boundary (and for the top
      and bottom, which never get a link). */
  function GridNeighbor(c: int, side: int): (n: int)
    requires 0 <= c < CellCount
    ensures n == NoNeighbor || 0 <= n < CellCount
    ensures n != NoNeighbor ==> 0 <= side < Top && n != c
  {
    var x, y := c % DefaultMazeWidth, c / DefaultMazeWidth;
    if side == West then (if x - 1 >= 0 then c - 1 else NoNeighbor)
    else if side == East then (if x + 1 < DefaultMazeWidth then c + 1 else NoNeighbor)
    else if side == South then (if y - 1 >= 0 then c - DefaultMazeWidth else NoNeighbor)
    else if side == North then (if y + 1 < DefaultMazeHeight then c + DefaultMazeWidth else NoNeighbor)
    else NoNeighbor
  }

  /** Links are reciprocal: the neighbour on `side` has `c` as its neighbour
      on the opposite side. */
  lemma GridNeighborReciprocal(c: int, side: int)
    requires 0 <= c < CellCount && GridNeighbor(c, side) != NoNeighbor
    ensures GridNeighbor(GridNeighbor(c, side), OppositeSide(side)) == c
  {
    var x, y := c % DefaultMazeWidth, c / DefaultMazeWidth;
    if side == East {
      assert (c + 1) % DefaultMazeWidth == x + 1;
    } else if side == West {
      assert (c - 1) % DefaultMazeWidth == x - 1;
    } else if side == North {
      assert (c + DefaultMazeWidth) / DefaultMazeWidth == y + 1;
    } else {
      assert (c - DefaultMazeWidth) / DefaultMazeWidth == y - 1;
    }
  }

  /** Only a side on the grid boundary lacks a neighbour. */
  lemma GridNeighborInGrid(x: int, y: int)
    requires InGrid(x, y)
    ensures GridNeighbor(Index(x, y), West) == (if x > 0 then Index(x - 1, y) else NoNeighbor)
    ensures GridNeighbor(Index(x, y), East) == (if x + 1 < DefaultMazeWidth then Index(x + 1, y) else NoNeighbor)
    ensures GridNeighbor(Index(x, y), South) == (if y > 0 then Index(x, y - 1) else NoNeighbor)
    ensures GridNeighbor(Index(x, y), North) == (if y + 1 < DefaultMazeHeight then Index(x, y + 1) else NoNeighbor)
  {
    IndexCoordinates(x, y);
  }

  /** The cell removeWalls' switch recurses into after opening `wall` of
      cell (i, j) is the grid neighbour behind that wall. */
  lemma SwitchTarget(i: int, j: int, wall: int, nextI: int, nextJ: int)
    requires InGrid(i, j) && 0 <= wall < Top && GridNeighbor(Index(i, j), wall) != NoNeighbor
    requires (nextI, nextJ) == if wall == North then (i, j + 1) else if wall == South then (i, j - 1)
                               else if wall == East then (i + 1, j) else (i - 1, j)
    ensures TargetCell(nextI, nextJ) == GridNeighbor(Index(i, j), wall)
  {
    GridNeighborInGrid(i, j);
  }

  /** Number of sides of cell (x, y) that get a neighbour. */
  function InGridNeighborCount(x: int, y: int): (count: nat)
  {
    (if x - 1 >= 0 then 1 else 0) + (if x + 1 < DefaultMazeWidth then 1 else 0)
    + (if y - 1 >= 0 then 1 else 0) + (if y + 1 < DefaultMazeHeight then 1 else 0)
  }

  /** One guarded setNeighbor of assignNeighbors: side `side` of cell `c`
      is linked where the grid has a neighbour there. */
  function LinkSide(nb: seq<int>, c: int, side: int): (r: seq<int>)
    requires |nb| == CellCount * NumSides && 0 <= c < CellCount && 0 <= side < NumSides
    ensures |r| == |nb|
  {
    if GridNeighbor(c, side) != NoNeighbor then nb[Slot(c, side) := GridNeighbor(c, side)] else nb
  }

  /** One pass of assignNeighbors' loop over cell `c`: west, east, south,
      north in that order. */
  function LinkCell(nb: seq<int>, c: int): (r: seq<int>)
    requires |nb| == CellCount * NumSides && 0 <= c < CellCount
    ensures |r| == |nb|
  {
    LinkSide(LinkSide(LinkSide(LinkSide(nb, c, West), c, East), c, South), c, North)
  }

  /** A pass links every side of `c` that has a grid neighbour, keeps its
      other sides, and leaves every other cell alone. */
  lemma LinkCellEffect(nb: seq<int>, c: int)
    requires |nb| == CellCount * NumSides && 0 <= c < CellCount
    ensures forall s :: 0 <= s < NumSides ==>
              LinkCell(nb, c)[Slot(c, s)] ==
                if GridNeighbor(c, s) != NoNeighbor then GridNeighbor(c, s) else nb[Slot(c, s)]
    ensures forall d, s :: 0 <= d < CellCount && d != c && 0 <= s < NumSides ==>
              LinkCell(nb, c)[Slot(d, s)] == nb[Slot(d, s)]
  {
  }

  /** Repeating a pass changes nothing, so the four passes of the source's
      loop leave the same links as one. */
  lemma LinkCellIdempotent(nb: seq<int>, c: int)
    requires |nb| == CellCount * NumSides && 0 <= c < CellCount
    ensures LinkCell(LinkCell(nb, c), c) == LinkCell(nb, c)
  {
    var once := LinkCell(nb, c);
    LinkCellEffect(nb, c);
    LinkCellEffect(once, c);
    forall k | 0 <= k < |nb|
      ensures LinkCell(once, c)[k] == once[k]
    {
      assert k == Slot(k / NumSides, k % NumSides);
    }
  }

  /** Links after initializeCells' neighbour loop has passed every column
      before `i` and the first `j` rows of column `i`; the rest still carry
      no links. */
  ghost predicate LinkedUpTo(nb: seq<int>, i: int, j: int)
    requires |nb| == CellCount * NumSides
  {
    forall x, y, s :: InGrid(x, y) && 0 <= s < NumSides ==>
      nb[Slot(Index(x, y), s)] ==
        if x < i || (x == i && y < j) then GridNeighbor(Index(x, y), s) else NoNeighbor
  }

  lemma LinkedUpToStart(nb: seq<int>)
    requires |nb| == CellCount * NumSides
    requires forall k :: 0 <= k < |nb| ==> nb[k] == NoNeighbor
    ensures LinkedUpTo(nb, 0, 0)
  {
  }

  lemma LinkedUpToStep(nb: seq<int>, i: int, j: int)
    requires |nb| == CellCount * NumSides && InGrid(i, j) && LinkedUpTo(nb, i, j)
    ensures LinkedUpTo(LinkCell(nb, Index(i, j)), i, j + 1)
  {
    LinkCellEffect(nb, Index(i, j));
  }

  lemma LinkedUpToEnd(nb: seq<int>)
    requires |nb| == CellCount * NumSides && LinkedUpTo(nb, DefaultMazeWidth, 0)
    ensures GridLinked(nb)
  {
    forall c, s | 0 <= c < CellCount && 0 <= s < NumSides
      ensures nb[Slot(c, s)] == GridNeighbor(c, s)
    {
      CoordinatesIndex(c);
    }
  }

  // ---------------------------------------------------------------------
  // States of the arena once its cells are linked.

  /** Every cell carries exactly the links of the grid. */
  ghost predicate GridLinked(nb: seq<int>)
    requires |nb| == CellCount * NumSides
  {
    forall c, s :: 0 <= c < CellCount && 0 <= s < NumSides ==> nb[Slot(c, s)] == GridNeighbor(c, s)
  }

  lemma GridLinkedInRange(nb: seq<int>)
    requires |nb| == CellCount * NumSides && GridLinked(nb)
    ensures LinksInRange(nb, CellCount)
  {
    forall k | 0 <= k < |nb|
      ensures NoNeighbor <= nb[k] < CellCount
    {
      assert k == Slot(k / NumSides, k % NumSides);
    }
  }

  /** A wall shared by two linked cells is present on both sides or on
      neither. */
  ghost predicate Reciprocal(w: seq<bool>)
    requires |w| == CellCount * NumSides
  {
    forall c, s {:trigger GridNeighbor(c, s)} ::
      0 <= c < CellCount && 0 <= s < Top && GridNeighbor(c, s) != NoNeighbor ==>
        w[Slot(c, s)] == w[Slot(GridNeighbor(c, s), OppositeSide(s))]
  }

  /** Every side without a neighbour (the outer walls, floors and ceilings)
      keeps its wall. */
  ghost predicate BoundaryIntact(w: seq<bool>)
    requires |w| == CellCount * NumSides
  {
    forall c, s :: 0 <= c < CellCount && 0 <= s < NumSides && GridNeighbor(c, s) == NoNeighbor ==>
      w[Slot(c, s)]
  }

  /** The outer walls never open: the south side of any cell in the first
      row and the north side of any cell in the last row stand. */
  lemma DoorWallsStanding(w: seq<bool>, start: int, finish: int)
    requires |w| == CellCount * NumSides && BoundaryIntact(w)
    requires 0 <= start < DefaultMazeWidth && 0 <= finish < DefaultMazeWidth
    ensures w[Slot(Index(start, 0), South)]
    ensures w[Slot(Index(finish, DefaultMazeHeight - 1), North)]
  {
    GridNeighborInGrid(start, 0);
    GridNeighborInGrid(finish, DefaultMazeHeight - 1);
  }

  /** Every cell with an opened cardinal wall has been visited, except
      possibly `t`, the cell the carver is about to enter. */
  ghost predicate OpenEdgesVisited(w: seq<bool>, v: seq<bool>, t: int)
    requires |w| == CellCount * NumSides && |v| == CellCount
  {
    forall c, s :: 0 <= c < CellCount && 0 <= s < Top && !w[Slot(c, s)] ==> v[c] || c == t
  }

  /** All grid neighbours of `c` are visited. */
  ghost predicate NeighborsVisited(v: seq<bool>, c: int)
    requires |v| == CellCount && 0 <= c < CellCount
  {
    forall s :: 0 <= s < Top && GridNeighbor(c, s) != NoNeighbor ==> v[GridNeighbor(c, s)]
  }

  /** Cell `u` reaches its parent, a visited cell nearer the root, through an
      opened wall on side `ps[u]`. */
  ghost predicate ParentLink(w: seq<bool>, v: seq<bool>, ps: seq<int>, depth: seq<nat>, u: int)
    requires |w| == CellCount * NumSides && |v| == CellCount && |ps| == CellCount && |depth| == CellCount
    requires 0 <= u < CellCount
  {
    && 0 <= ps[u] < Top
    && GridNeighbor(u, ps[u]) != NoNeighbor
    && v[GridNeighbor(u, ps[u])]
    && depth[GridNeighbor(u, ps[u])] < depth[u]
    && !w[Slot(u, ps[u])]
  }

  /** The visited cells form a tree of opened walls hanging from `root`. */
  ghost predicate Tree(w: seq<bool>, v: seq<bool>, ps: seq<int>, depth: seq<nat>, root: int)
    requires |w| == CellCount * NumSides && |v| == CellCount && |ps| == CellCount && |depth| == CellCount
  {
    && 0 <= root < CellCount
    && forall u {:trigger ParentLink(w, v, ps, depth, u)} ::
         0 <= u < CellCount && v[u] && u != root ==> ParentLink(w, v, ps, depth, u)
  }

  /** Side `s` of cell `c` is the wall between a cell and its parent: `c`
      was entered through it, or the neighbour behind it was entered from
      `c`. */
  ghost predicate TreeEdge(ps: seq<int>, root: int, c: int, s: int)
    requires |ps| == CellCount && 0 <= c < CellCount
  {
    || (c != root && ps[c] == s)
    || (GridNeighbor(c, s) != NoNeighbor && GridNeighbor(c, s) != root
        && ps[GridNeighbor(c, s)] == OppositeSide(s))
  }

  /** Every opened cardinal wall is a wall between a cell and its parent:
      the carver opens no wall that would close a cycle. */
  ghost predicate OpenIsParent(w: seq<bool>, ps: seq<int>, root: int)
    requires |w| == CellCount * NumSides && |ps| == CellCount
  {
    forall c, s {:trigger TreeEdge(ps, root, c, s)} ::
      0 <= c < CellCount && 0 <= s < Top && !w[Slot(c, s)] ==> TreeEdge(ps, root, c, s)
  }

  /** The state the carver keeps between its steps. */
  ghost predicate Carving(w: seq<bool>, v: seq<bool>, ps: seq<int>, depth: seq<nat>, root: int)
    requires |w| == CellCount * NumSides && |v| == CellCount && |ps| == CellCount && |depth| == CellCount
  {
    && Reciprocal(w)
    && BoundaryIntact(w)
    && Tree(w, v, ps, depth, root)
    && OpenIsParent(w, ps, root)
  }

  /** The cell removeWalls(i, j) works on, or NoNeighbor when (i, j) lies
      outside the grid and the call is rejected. */
  function TargetCell(i: int, j: int): (t: int)
    ensures t == NoNeighbor || 0 <= t < CellCount
  {
    if InGrid(i, j) then Index(i, j) else NoNeighbor
  }

  /** Marking the carver's target visited keeps the tree, provided the
      target is the root, already visited, or hangs from a visited parent. */
  lemma VisitKeepsTree(w: seq<bool>, v: seq<bool>, ps: seq<int>, depth: seq<nat>, root: int, c: int)
    requires |w| == CellCount * NumSides && |v| == CellCount && |ps| == CellCount && |depth| == CellCount
    requires Tree(w, v, ps, depth, root) && 0 <= c < CellCount
    requires c == root || v[c] || ParentLink(w, v, ps, depth, c)
    ensures Tree(w, v[c := true], ps, depth, root)
  {
    forall u | 0 <= u < CellCount && (v[u] || u == c) && u != root
      ensures ParentLink(w, v[c := true], ps, depth, u)
    {
      assert ParentLink(w, v, ps, depth, u);
    }
  }

  /** A cell whose neighbours are all visited keeps that property as more
      cells are visited. */
  lemma NeighborsVisitedGrows(v: seq<bool>, v': seq<bool>, c: int)
    requires |v| == CellCount && |v'| == CellCount && 0 <= c < CellCount
    requires NeighborsVisited(v, c) && forall k :: 0 <= k < CellCount && v[k] ==> v'[k]
    ensures NeighborsVisited(v', c)
  {
  }

  /** The walls after cell `c` breaks through its wall on `side`: that
      slot and the matching slot of the neighbour are cleared. */
  function Carved(w: seq<bool>, c: int, side: int): (w': seq<bool>)
    requires |w| == CellCount * NumSides && 0 <= c < CellCount && 0 <= side < Top
    requires GridNeighbor(c, side) != NoNeighbor
    ensures |w'| == |w| && !w'[Slot(c, side)]
    ensures !w'[Slot(GridNeighbor(c, side), OppositeSide(side))]
    ensures forall k :: 0 <= k < |w| && !w[k] ==> !w'[k]
  {
    w[Slot(c, side) := false][Slot(GridNeighbor(c, side), OppositeSide(side)) := false]
  }

  lemma CarvedKeepsReciprocal(w: seq<bool>, c: int, side: int)
    requires |w| == CellCount * NumSides && 0 <= c < CellCount && 0 <= side < Top
    requires GridNeighbor(c, side) != NoNeighbor && Reciprocal(w)
    ensures Reciprocal(Carved(w, c, side))
  {
    var w' := Carved(w, c, side);
    GridNeighborReciprocal(c, side);
    OppositeSideInvolution(side);
    SlotParts(c, side);
    SlotParts(GridNeighbor(c, side), OppositeSide(side));
    forall c2, s2 | 0 <= c2 < CellCount && 0 <= s2 < Top && GridNeighbor(c2, s2) != NoNeighbor
      ensures w'[Slot(c2, s2)] == w'[Slot(GridNeighbor(c2, s2), OppositeSide(s2))]
    {
      GridNeighborReciprocal(c2, s2);
      OppositeSideInvolution(s2);
      SlotParts(c2, s2);
      SlotParts(GridNeighbor(c2, s2), OppositeSide(s2));
    }
  }

  lemma CarvedKeepsBoundary(w: seq<bool>, c: int, side: int)
    requires |w| == CellCount * NumSides && 0 <= c < CellCount && 0 <= side < Top
    requires GridNeighbor(c, side) != NoNeighbor && BoundaryIntact(w)
    ensures BoundaryIntact(Carved(w, c, side))
  {
    var n := GridNeighbor(c, side);
    GridNeighborReciprocal(c, side);
    SlotParts(c, side);
    SlotParts(n, OppositeSide(side));
    forall c2, s2 | 0 <= c2 < CellCount && 0 <= s2 < NumSides && GridNeighbor(c2, s2) == NoNeighbor
      ensures Carved(w, c, side)[Slot(c2, s2)]
    {
      SlotParts(c2, s2);
    }
  }

  lemma CarvedKeepsTree(w: seq<bool>, v: seq<bool>, ps: seq<int>, depth: seq<nat>, root: int, c: int, side: int)
    requires |w| == CellCount * NumSides && |v| == CellCount && |ps| == CellCount && |depth| == CellCount
    requires Tree(w, v, ps, depth, root) && v[root] && 0 <= c < CellCount && v[c] && 0 <= side < Top
    requires GridNeighbor(c, side) != NoNeighbor && !v[GridNeighbor(c, side)]
    ensures var n := GridNeighbor(c, side);
            var w' := Carved(w, c, side);
            var ps' := ps[n := OppositeSide(side)];
            var depth' := depth[n := depth[c] + 1];
            Tree(w', v, ps', depth', root) && ParentLink(w', v, ps', depth', n)
  {
    var n := GridNeighbor(c, side);
    var w' := Carved(w, c, side);
    var ps' := ps[n := OppositeSide(side)];
    var depth' := depth[n := depth[c] + 1];
    GridNeighborReciprocal(c, side);
    forall u | 0 <= u < CellCount && v[u] && u != root
      ensures ParentLink(w', v, ps', depth', u)
    {
      assert ParentLink(w, v, ps, depth, u);
    }
  }

  /** Carving into an unvisited neighbour `n` other than the root, which
      becomes `c`'s child, opens only the wall between `n` and its new
      parent, and no wall already open names `n` as a parent or child. */
  lemma CarvedKeepsOpenIsParent(w: seq<bool>, v: seq<bool>, ps: seq<int>, root: int, c: int, side: int)
    requires |w| == CellCount * NumSides && |v| == CellCount && |ps| == CellCount
    requires 0 <= c < CellCount && 0 <= side < Top
    requires GridNeighbor(c, side) != NoNeighbor && GridNeighbor(c, side) != root
    requires !v[GridNeighbor(c, side)]
    requires Reciprocal(w) && OpenEdgesVisited(w, v, -1) && OpenIsParent(w, ps, root)
    ensures OpenIsParent(Carved(w, c, side), ps[GridNeighbor(c, side) := OppositeSide(side)], root)
  {
    var n := GridNeighbor(c, side);
    var w' := Carved(w, c, side);
    var ps' := ps[n := OppositeSide(side)];
    GridNeighborReciprocal(c, side);
    SlotParts(c, side);
    SlotParts(n, OppositeSide(side));
    forall c2, s2 | 0 <= c2 < CellCount && 0 <= s2 < Top && !w'[Slot(c2, s2)]
      ensures TreeEdge(ps', root, c2, s2)
    {
      SlotParts(c2, s2);
      if Slot(c2, s2) == Slot(c, side) {
        assert GridNeighbor(c2, s2) == n && ps'[n] == OppositeSide(s2);
      } else if Slot(c2, s2) == Slot(n, OppositeSide(side)) {
        assert c2 == n && ps'[c2] == s2;
      } else {
        assert !w[Slot(c2, s2)];
        assert TreeEdge(ps, root, c2, s2);
        // Both sides of an open wall are visited, and `n` is not.
        assert c2 != n && GridNeighbor(c2, s2) != n;
      }
    }
  }

  lemma CarvedFalseCount(w: seq<bool>, c: int, side: int)
    requires |w| == CellCount * NumSides && 0 <= c < CellCount && 0 <= side < Top
    requires GridNeighbor(c, side) != NoNeighbor && w[Slot(c, side)]
    requires w[Slot(GridNeighbor(c, side), OppositeSide(side))]
    ensures FalseCount(Carved(w, c, side)) == FalseCount(w) + 2
  {
    var n := GridNeighbor(c, side);
    TrueCountUpdate(w, Slot(c, side), false);
    TrueCountUpdate(w[Slot(c, side) := false], Slot(n, OppositeSide(side)), false);
  }

  lemma CarvedOpenEdges(w: seq<bool>, v: seq<bool>, c: int, side: int)
    requires |w| == CellCount * NumSides && |v| == CellCount && 0 <= c < CellCount && 0 <= side < Top
    requires GridNeighbor(c, side) != NoNeighbor && OpenEdgesVisited(w, v, -1) && v[c]
    ensures OpenEdgesVisited(Carved(w, c, side), v, GridNeighbor(c, side))
  {
    var w' := Carved(w, c, side);
    var n := GridNeighbor(c, side);
    forall c2, s2 | 0 <= c2 < CellCount && 0 <= s2 < Top && !w'[Slot(c2, s2)]
      ensures v[c2] || c2 == n
    {
      if w[Slot(c2, s2)] {
        assert Slot(c2, s2) == Slot(c, side) || Slot(c2, s2) == Slot(n, OppositeSide(side));
      }
    }
  }

  /** One carving step: cell `c` breaks its wall on `side` into the
      unvisited neighbour `n`, which becomes `c`'s child.  The step keeps
      the carving invariants, opens exactly two wall flags, and leaves only
      `n` as a cell with an open wall that is not yet visited. */
  lemma CarveStep(w: seq<bool>, v: seq<bool>, ps: seq<int>, depth: seq<nat>, root: int, c: int, side: int)
    requires |w| == CellCount * NumSides && |v| == CellCount && |ps| == CellCount && |depth| == CellCount
    requires Carving(w, v, ps, depth, root) && OpenEdgesVisited(w, v, -1)
    requires v[root] && 0 <= c < CellCount && v[c] && 0 <= side < Top
    requires GridNeighbor(c, side) != NoNeighbor && w[Slot(c, side)] && !v[GridNeighbor(c, side)]
    ensures var n := GridNeighbor(c, side);
            var w' := Carved(w, c, side);
            var ps' := ps[n := OppositeSide(side)];
            var depth' := depth[n := depth[c] + 1];
            && n != root
            && Carving(w', v, ps', depth', root)
            && ParentLink(w', v, ps', depth', n)
            && OpenEdgesVisited(w', v, n)
            && FalseCount(w') == FalseCount(w) + 2
  {
    var n := GridNeighbor(c, side);
    GridNeighborReciprocal(c, side);
    OppositeSideInvolution(side);
    assert w[Slot(n, OppositeSide(side))];
    CarvedKeepsReciprocal(w, c, side);
    CarvedKeepsBoundary(w, c, side);
    CarvedKeepsTree(w, v, ps, depth, root, c, side);
    CarvedKeepsOpenIsParent(w, v, ps, root, c, side);
    CarvedFalseCount(w, c, side);
    CarvedOpenEdges(w, v, c, side);
  }

  /** Where no cardinal side of `c` is a candidate, all of its neighbours
      have been visited. */
  lemma NoCandidateMeansNeighborsVisited(w: seq<bool>, v: seq<bool>, c: int)
    requires |w| == CellCount * NumSides && |v| == CellCount && 0 <= c < CellCount
    requires Reciprocal(w) && OpenEdgesVisited(w, v, -1)
    requires forall s :: 0 <= s < Top ==>
               !(w[Slot(c, s)] && GridNeighbor(c, s) != NoNeighbor && !v[GridNeighbor(c, s)])
    ensures NeighborsVisited(v, c)
  {
    forall s | 0 <= s < Top && GridNeighbor(c, s) != NoNeighbor
      ensures v[GridNeighbor(c, s)]
    {
      var n := GridNeighbor(c, s);
      if !w[Slot(c, s)] {
        assert !w[Slot(n, OppositeSide(s))];
      }
    }
  }

  /** What the carver requires on entry with target `t`: the carving
      invariants, no open wall on an unvisited cell other than `t`, a visited
      root (unless `t` is the root), and a target that is the root, already
      visited, or hangs from a visited parent (or is NoNeighbor). */
  ghost predicate CarveEntry(w: seq<bool>, v: seq<bool>, ps: seq<int>, depth: seq<nat>, root: int, t: int)
    requires |w| == CellCount * NumSides && |v| == CellCount && |ps| == CellCount && |depth| == CellCount
    requires t == NoNeighbor || 0 <= t < CellCount
  {
    && Carving(w, v, ps, depth, root)
    && OpenEdgesVisited(w, v, t)
    && (v[root] || t == root)
    && (t == NoNeighbor || t == root || v[t] || ParentLink(w, v, ps, depth, t))
  }

  /** What a call of the carver on target `t` (NoNeighbor for a rejected
      position) leaves behind, from walls `w0` and visits `v0`: the carving
      invariants hold, no open wall belongs to an unvisited cell, the target
      and every cell the call visits have all their neighbours visited, visits
      and opened walls only grow, and two wall flags were opened per newly
      visited cell other than the target. */
  ghost predicate CarveResult(w0: seq<bool>, v0: seq<bool>, w: seq<bool>, v: seq<bool>,
                              ps: seq<int>, depth: seq<nat>, root: int, t: int)
    requires |w0| == |w| == CellCount * NumSides && |v0| == |v| == CellCount
    requires |ps| == CellCount && |depth| == CellCount
    requires t == NoNeighbor || 0 <= t < CellCount
  {
    && Carving(w, v, ps, depth, root)
    && OpenEdgesVisited(w, v, NoNeighbor)
    && v[root]
    && (t != NoNeighbor ==> v[t] && NeighborsVisited(v, t))
    && (forall k :: 0 <= k < CellCount && v0[k] ==> v[k])
    && (forall k :: 0 <= k < |w| && !w0[k] ==> !w[k])
    && (forall k {:trigger NeighborsVisited(v, k)} ::
          0 <= k < CellCount && v[k] && !v0[k] ==> NeighborsVisited(v, k))
    && FalseCount(w) - FalseCount(w0) ==
       2 * (TrueCount(v) - TrueCount(v0)) - (if t != NoNeighbor && !v0[t] then 2 else 0)
  }

  /** The carver's state while it works on cell `c`: as CarveResult, except
      that `c` itself may still have unvisited neighbours. */
  ghost predicate CarveProgress(w0: seq<bool>, v0: seq<bool>, w: seq<bool>, v: seq<bool>,
                                ps: seq<int>, depth: seq<nat>, root: int, c: int)
    requires |w0| == |w| == CellCount * NumSides && |v0| == |v| == CellCount
    requires |ps| == CellCount && |depth| == CellCount && 0 <= c < CellCount
  {
    && Carving(w, v, ps, depth, root)
    && OpenEdgesVisited(w, v, NoNeighbor)
    && v[root] && v[c]
    && (forall k :: 0 <= k < CellCount && v0[k] ==> v[k])
    && (forall k :: 0 <= k < |w| && !w0[k] ==> !w[k])
    && (forall k {:trigger NeighborsVisited(v, k)} ::
          0 <= k < CellCount && v[k] && !v0[k] && k != c ==> NeighborsVisited(v, k))
    && FalseCount(w) - FalseCount(w0) ==
       2 * (TrueCount(v) - TrueCount(v0)) - (if v0[c] then 0 else 2)
    && TrueCount(v) >= TrueCount(v0) + (if v0[c] then 0 else 1)
  }

  /** A rejected position changes nothing and satisfies CarveResult. */
  lemma CarveRejected(w: seq<bool>, v: seq<bool>, ps: seq<int>, depth: seq<nat>, root: int)
    requires |w| == CellCount * NumSides && |v| == CellCount && |ps| == CellCount && |depth| == CellCount
    requires CarveEntry(w, v, ps, depth, root, NoNeighbor)
    ensures CarveResult(w, v, w, v, ps, depth, root, NoNeighbor)
  {
  }

  /** Marking `c` visited starts the work on it. */
  lemma CarveBegin(w: seq<bool>, v: seq<bool>, ps: seq<int>, depth: seq<nat>, root: int, c: int)
    requires |w| == CellCount * NumSides && |v| == CellCount && |ps| == CellCount && |depth| == CellCount
    requires 0 <= c < CellCount && CarveEntry(w, v, ps, depth, root, c)
    ensures CarveProgress(w, v, w, v[c := true], ps, depth, root, c)
  {
    var v' := v[c := true];
    VisitKeepsTree(w, v, ps, depth, root, c);
    TrueCountUpdate(v, c, true);
    forall c2, s | 0 <= c2 < CellCount && 0 <= s < Top && !w[Slot(c2, s)]
      ensures v'[c2]
    {
    }
    assert OpenEdgesVisited(w, v', NoNeighbor);
    assert forall k :: 0 <= k < CellCount && v'[k] && !v[k] ==> k == c;
  }

  /** After carving from `c` into an unvisited neighbour and finishing the
      recursive call there, the work on `c` continues, with strictly more
      cells visited. */
  lemma {:induction false} CarveChild(w0: seq<bool>, v0: seq<bool>, w: seq<bool>, v: seq<bool>,
                                      ps: seq<int>, depth: seq<nat>, root: int, c: int, side: int,
                                      w2: seq<bool>, v2: seq<bool>, ps2: seq<int>, depth2: seq<nat>)
    requires |w0| == |w| == |w2| == CellCount * NumSides && |v0| == |v| == |v2| == CellCount
    requires |ps| == |ps2| == CellCount && |depth| == |depth2| == CellCount
    requires 0 <= c < CellCount && 0 <= side < Top
    requires CarveProgress(w0, v0, w, v, ps, depth, root, c)
    requires GridNeighbor(c, side) != NoNeighbor && w[Slot(c, side)] && !v[GridNeighbor(c, side)]
    requires CarveResult(Carved(w, c, side), v, w2, v2, ps2, depth2, root, GridNeighbor(c, side))
    ensures CarveProgress(w0, v0, w2, v2, ps2, depth2, root, c)
    ensures TrueCount(v2) > TrueCount(v)
  {
    var n := GridNeighbor(c, side);
    GridNeighborReciprocal(c, side);
    OppositeSideInvolution(side);
    CarvedFalseCount(w, c, side);
    TrueCountMonotone(v, v2);
    forall k | 0 <= k < CellCount && v2[k] && !v0[k] && k != c
      ensures NeighborsVisited(v2, k)
    {
      if v[k] {
        NeighborsVisitedGrows(v, v2, k);
      }
    }
  }

  /** A candidate chosen by removeRandomWall, on grid links, is the carving
      step of CarveStep, and the state after it meets everything the
      recursive call into the neighbour requires. */
  lemma CarveReady(w0: seq<bool>, v0: seq<bool>, w: seq<bool>, nb: seq<int>, v: seq<bool>,
                   ps: seq<int>, depth: seq<nat>, root: int, c: int, side: int)
    requires |w0| == |w| == |nb| == CellCount * NumSides && |v0| == |v| == CellCount
    requires |ps| == CellCount && |depth| == CellCount && 0 <= c < CellCount && 0 <= side < Top
    requires GridLinked(nb) && LinksInRange(nb, CellCount)
    requires CarveProgress(w0, v0, w, v, ps, depth, root, c)
    requires IsCandidate(w, nb, v, c, side)
    ensures var n := GridNeighbor(c, side);
            && n != NoNeighbor && w[Slot(c, side)] && !v[n]
            && RemoveWallSpec(w, nb, CellCount, c, side) == Carved(w, c, side)
            && CarveEntry(Carved(w, c, side), v, ps[n := OppositeSide(side)],
                          depth[n := depth[c] + 1], root, n)
  {
    CandidateOnGrid(w, nb, v, c, side);
    GridNeighborReciprocal(c, side);
    RemoveWallOnLinkedPair(w, nb, CellCount, c, side);
    CarveStep(w, v, ps, depth, root, c, side);
  }

  /** When no cardinal side of `c` is a candidate any more, the work on `c`
      is complete. */
  lemma CarveEnd(w0: seq<bool>, v0: seq<bool>, w: seq<bool>, v: seq<bool>,
                 ps: seq<int>, depth: seq<nat>, root: int, c: int)
    requires |w0| == |w| == CellCount * NumSides && |v0| == |v| == CellCount
    requires |ps| == CellCount && |depth| == CellCount && 0 <= c < CellCount
    requires CarveProgress(w0, v0, w, v, ps, depth, root, c)
    requires forall s :: 0 <= s < Top ==>
               !(w[Slot(c, s)] && GridNeighbor(c, s) != NoNeighbor && !v[GridNeighbor(c, s)])
    ensures CarveResult(w0, v0, w, v, ps, depth, root, c)
  {
    NoCandidateMeansNeighborsVisited(w, v, c);
  }

  /** On grid links, a candidate of removeRandomWall is a closed cardinal
      wall with an unvisited grid neighbour behind it. */
  lemma CandidateOnGrid(w: seq<bool>, nb: seq<int>, v: seq<bool>, c: int, side: int)
    requires |w| == CellCount * NumSides && |nb| == CellCount * NumSides && |v| == CellCount
    requires GridLinked(nb) && 0 <= c < CellCount && 0 <= side < Top
    ensures LinksInRange(nb, CellCount)
    ensures IsCandidate(w, nb, v, c, side) <==>
              w[Slot(c, side)] && GridNeighbor(c, side) != NoNeighbor && !v[GridNeighbor(c, side)]
  {
    GridLinkedInRange(nb);
  }

  lemma NoCandidateOnGrid(w: seq<bool>, nb: seq<int>, v: seq<bool>, c: int)
    requires |w| == CellCount * NumSides && |nb| == CellCount * NumSides && |v| == CellCount
    requires GridLinked(nb) && 0 <= c < CellCount
    requires LinksInRange(nb, CellCount) && !HasCandidate(w, nb, v, c)
    ensures forall s :: 0 <= s < Top ==>
              !(w[Slot(c, s)] && GridNeighbor(c, s) != NoNeighbor && !v[GridNeighbor(c, s)])
  {
    forall s | 0 <= s < Top
      ensures !(w[Slot(c, s)] && GridNeighbor(c, s) != NoNeighbor && !v[GridNeighbor(c, s)])
    {
      CandidateOnGrid(w, nb, v, c, s);
    }
  }

  /** A set of visited cells that contains cell 0 and is closed under the
      grid's neighbour relation is the whole grid. */
  lemma {:induction false} ClosedReachesAll(v: seq<bool>)
    requires |v| == CellCount && v[0]
    requires forall c :: 0 <= c < CellCount && v[c] ==> NeighborsVisited(v, c)
    ensures forall c :: 0 <= c < CellCount ==> v[c]
  {
    for k := 1 to CellCount
      invariant forall c :: 0 <= c < k ==> v[c]
    {
      if k % DefaultMazeWidth != 0 {
        assert NeighborsVisited(v, k - 1);
        assert GridNeighbor(k - 1, East) == k;
      } else {
        assert NeighborsVisited(v, k - DefaultMazeWidth);
        assert GridNeighbor(k - DefaultMazeWidth, North) == k;
      }
    }
  }

  /** Cells `a` and `b` are neighbours with the wall between them opened. */
  ghost predicate OpenStep(w: seq<bool>, a: int, b: int)
    requires |w| == CellCount * NumSides
  {
    0 <= a < CellCount && exists s :: 0 <= s < Top && GridNeighbor(a, s) == b && !w[Slot(a, s)]
  }

  /** A walk through the maze that crosses only opened walls. */
  ghost predicate IsOpenPath(w: seq<bool>, p: seq<int>)
    requires |w| == CellCount * NumSides
  {
    && |p| >= 1
    && (forall i :: 0 <= i < |p| ==> 0 <= p[i] < CellCount)
    && (forall i :: 0 <= i < |p| - 1 ==> OpenStep(w, p[i], p[i + 1]))
  }

  /** Following parents leads every visited cell to the root. */
  lemma {:induction false} PathToRoot(w: seq<bool>, v: seq<bool>, ps: seq<int>, depth: seq<nat>, root: int, u: int)
    returns (p: seq<int>)
    requires |w| == CellCount * NumSides && |v| == CellCount && |ps| == CellCount && |depth| == CellCount
    requires Tree(w, v, ps, depth, root) && 0 <= u < CellCount && v[u]
    ensures IsOpenPath(w, p) && p[0] == u && p[|p| - 1] == root
    decreases depth[u]
  {
    if u == root {
      p := [u];
    } else {
      assert ParentLink(w, v, ps, depth, u);
      var parent := GridNeighbor(u, ps[u]);
      var rest := PathToRoot(w, v, ps, depth, root, parent);
      p := [u] + rest;
      assert OpenStep(w, u, parent);
      forall i | 0 <= i < |p| - 1
        ensures OpenStep(w, p[i], p[i + 1])
      {
        if i > 0 {
          assert p[i] == rest[i - 1] && p[i + 1] == rest[i];
        }
      }
    }
  }

  /** Some open path leads from `u` to `root`. */
  ghost predicate ReachesRoot(w: seq<bool>, u: int, root: int)
    requires |w| == CellCount * NumSides
  {
    exists p :: IsOpenPath(w, p) && p[0] == u && p[|p| - 1] == root
  }

  /** A carved maze: every cell is joined to the root by a path of opened
      walls. */
  lemma MazeConnected(w: seq<bool>, v: seq<bool>, ps: seq<int>, depth: seq<nat>, root: int)
    requires |w| == CellCount * NumSides && |v| == CellCount && |ps| == CellCount && |depth| == CellCount
    requires Tree(w, v, ps, depth, root) && forall c :: 0 <= c < CellCount ==> v[c]
    ensures forall u :: 0 <= u < CellCount ==> ReachesRoot(w, u, root)
  {
    forall u | 0 <= u < CellCount
      ensures ReachesRoot(w, u, root)
    {
      var p := PathToRoot(w, v, ps, depth, root, u);
    }
  }

  // ---------------------------------------------------------------------
  // isLegalPosition

  /** The answer of isLegalPosition.  `ReadsPastEnd` marks the inputs for
      which the source's guard `cellIndex > cells_.size()` lets through
      `cellIndex == cells_.size()` and the wall tests read one element past
      the end of the cell vector. */
  datatype Verdict = Legal | Illegal | ReadsPastEnd

  /** `(int) x + ((int) y) * width_`; the truncation is a floor wherever the
      index is used, since negative coordinates are rejected first. */
  function CellIndexAt(x: real, y: real): (cellIndex: int)
  {
    x.Floor + y.Floor * DefaultMazeWidth
  }

  /** isLegalPosition as written: out of the box [0, width] x [0, height]
      or past the guard, illegal; otherwise illegal exactly when a present
      wall of the containing cell is crossed by the collision radius. */
  function Legality(w: seq<bool>, x: real, y: real, radius: real): (v: Verdict)
    requires |w| == CellCount * NumSides
    ensures y < 0.0 || y > DefaultMazeHeight as real || x < 0.0 || x > DefaultMazeWidth as real ==> v == Illegal
    ensures v == ReadsPastEnd ==> CellIndexAt(x, y) == CellCount
    ensures v == Legal ==> 0 <= CellIndexAt(x, y) < CellCount
    ensures v == Legal ==>
              && !(w[Slot(CellIndexAt(x, y), North)] && y - y.Floor as real + radius > 1.0)
              && !(w[Slot(CellIndexAt(x, y), South)] && y - y.Floor as real - radius < 0.0)
              && !(w[Slot(CellIndexAt(x, y), East)] && x - x.Floor as real + radius > 1.0)
              && !(w[Slot(CellIndexAt(x, y), West)] && x - x.Floor as real - radius < 0.0)
    ensures && 0.0 <= y <= DefaultMazeHeight as real && 0.0 <= x <= DefaultMazeWidth as real
            && 0 <= CellIndexAt(x, y) < CellCount
            && !(w[Slot(CellIndexAt(x, y), North)] && y - y.Floor as real + radius > 1.0)
            && !(w[Slot(CellIndexAt(x, y), South)] && y - y.Floor as real - radius < 0.0)
            && !(w[Slot(CellIndexAt(x, y), East)] && x - x.Floor as real + radius > 1.0)
            && !(w[Slot(CellIndexAt(x, y), West)] && x - x.Floor as real - radius < 0.0)
            ==> v == Legal
  {
    var cellIndex := CellIndexAt(x, y);
    var offsetX := x - x.Floor as real;
    var offsetY := y - y.Floor as real;
    if y < 0.0 || y > DefaultMazeHeight as real || x < 0.0 || x > DefaultMazeWidth as real
       || cellIndex < 0 || cellIndex > CellCount then
      Illegal
    else if cellIndex == CellCount then
      ReadsPastEnd
    else if w[Slot(cellIndex, North)] && offsetY + radius > 1.0 then
      Illegal
    else if w[Slot(cellIndex, South)] && offsetY - radius < 0.0 then
      Illegal
    else if w[Slot(cellIndex, East)] && offsetX + radius > 1.0 then
      Illegal
    else if w[Slot(cellIndex, West)] && offsetX - radius < 0.0 then
      Illegal
    else
      Legal
  }

  /** The guard's off-by-one is reached at exactly two places: the east edge
      of the top row, and the point (x, height) with x in [0, 1). */
  lemma ReadsPastEndExactly(w: seq<bool>, x: real, y: real, radius: real)
    requires |w| == CellCount * NumSides
    ensures Legality(w, x, y, radius) == ReadsPastEnd <==>
              (x == DefaultMazeWidth as real && (DefaultMazeHeight - 1) as real <= y < DefaultMazeHeight as real)
              || (0.0 <= x < 1.0 && y == DefaultMazeHeight as real)
  {
    if Legality(w, x, y, radius) == ReadsPastEnd {
      assert 0.0 <= x <= DefaultMazeWidth as real && 0.0 <= y <= DefaultMazeHeight as real;
      assert x.Floor + y.Floor * DefaultMazeWidth == CellCount;
      assert 0 <= x.Floor <= DefaultMazeWidth && 0 <= y.Floor <= DefaultMazeHeight;
    }
  }

  /** On the east edge x == width, the index wraps to the first cell of the
      next row, as the source computes it. */
  lemma EastEdgeAliasesNextRow(y: real)
    requires 0.0 <= y < (DefaultMazeHeight - 1) as real
    ensures CellIndexAt(DefaultMazeWidth as real, y) == Index(0, y.Floor + 1)
    ensures InGrid(0, y.Floor + 1)
  {
  }

  /** ... but with the outer walls in place and a positive radius, such a
      point is rejected by the wrapped cell's west wall. */
  lemma EastEdgeIsIllegal(w: seq<bool>, y: real, radius: real)
    requires |w| == CellCount * NumSides && BoundaryIntact(w)
    requires 0.0 <= y < (DefaultMazeHeight - 1) as real && radius > 0.0
    ensures Legality(w, DefaultMazeWidth as real, y, radius) == Illegal
  {
    var c := Index(0, y.Floor + 1);
    EastEdgeAliasesNextRow(y);
    GridNeighborInGrid(0, y.Floor + 1);
    assert w[Slot(c, West)];
  }

  /** With the outer walls in place, a legal position for a radius in (0, 1]
      keeps the radius away from the border of the grid. */
  lemma LegalIsInterior(w: seq<bool>, x: real, y: real, radius: real)
    requires |w| == CellCount * NumSides && BoundaryIntact(w)
    requires 0.0 < radius <= 1.0
    requires Legality(w, x, y, radius) == Legal
    ensures radius <= x <= DefaultMazeWidth as real - radius
    ensures radius <= y <= DefaultMazeHeight as real - radius
  {
    var fx, fy := x.Floor, y.Floor;
    if x == DefaultMazeWidth as real {
      if y < (DefaultMazeHeight - 1) as real {
        EastEdgeIsIllegal(w, y, radius);
      }
      assert false;
    }
    assert 0 <= fx < DefaultMazeWidth;
    if fy >= DefaultMazeHeight {
      assert false;
    }
    assert InGrid(fx, fy);
    var c := Index(fx, fy);
    assert c == CellIndexAt(x, y);
    GridNeighborInGrid(fx, fy);
    if fx == 0 { assert w[Slot(c, West)]; }
    if fx == DefaultMazeWidth - 1 { assert w[Slot(c, East)]; }
    if fy == 0 { assert w[Slot(c, South)]; }
    if fy == DefaultMazeHeight - 1 { assert w[Slot(c, North)]; }
  }

  /** A step shorter than the radius from a legal position never reaches
      the past-the-end read, whichever axis it moves along. */
  lemma StepFromLegalIsDefined(w: seq<bool>, x: real, y: real, radius: real, dx: real, dy: real)
    requires |w| == CellCount * NumSides && BoundaryIntact(w)
    requires 0.0 < radius <= 1.0 && -radius < dx < radius && -radius < dy < radius
    requires Legality(w, x, y, radius) == Legal
    ensures Legality(w, x + dx, y, radius) != ReadsPastEnd
    ensures Legality(w, x, y + dy, radius) != ReadsPastEnd
  {
    LegalIsInterior(w, x, y, radius);
    ReadsPastEndExactly(w, x + dx, y, radius);
    ReadsPastEndExactly(w, x, y + dy, radius);
  }

  /** The centre of any cell is legal for a radius of at most half a cell,
      whatever its walls. */
  lemma CellCentreIsLegal(w: seq<bool>, x: int, y: int, radius: real)
    requires |w| == CellCount * NumSides && InGrid(x, y)
    requires 0.0 <= radius <= 0.5
    ensures Legality(w, x as real + 0.5, y as real + 0.5, radius) == Legal
  {
    assert (x as real + 0.5).Floor == x;
    assert (y as real + 0.5).Floor == y;
    IndexCoordinates(x, y);
  }

  /** In a cell walled on all four sides, the centre is legal exactly when
      the radius is at most half a cell (a radius of exactly 0.5 touches the
      walls without crossing them). */
  lemma WalledCentreThreshold(w: seq<bool>, x: int, y: int, radius: real)
    requires |w| == CellCount * NumSides && InGrid(x, y)
    requires w[Slot(Index(x, y), North)] && w[Slot(Index(x, y), South)]
    requires w[Slot(Index(x, y), East)] && w[Slot(Index(x, y), West)]
    ensures Legality(w, x as real + 0.5, y as real + 0.5, radius) == Legal <==> radius <= 0.5
  {
    assert (x as real + 0.5).Floor == x;
    assert (y as real + 0.5).Floor == y;
    IndexCoordinates(x, y);
  }

  /** isLegalPosition with its guard corrected to `cellIndex >= cells_.size()`:
      the wall tests then only ever look at a cell of the grid. */
  function LegalPosition(w: seq<bool>, x: real, y: real, radius: real): (legal: bool)
    requires |w| == CellCount * NumSides
    ensures legal ==> 0.0 <= x <= DefaultMazeWidth as real && 0.0 <= y <= DefaultMazeHeight as real
    ensures legal ==> 0 <= CellIndexAt(x, y) < CellCount
  {
    var cellIndex := CellIndexAt(x, y);
    var offsetX := x - x.Floor as real;
    var offsetY := y - y.Floor as real;
    if y < 0.0 || y > DefaultMazeHeight as real || x < 0.0 || x > DefaultMazeWidth as real
       || cellIndex < 0 || cellIndex >= CellCount then
      false
    else
      && !(w[Slot(cellIndex, North)] && offsetY + radius > 1.0)
      && !(w[Slot(cellIndex, South)] && offsetY - radius < 0.0)
      && !(w[Slot(cellIndex, East)] && offsetX + radius > 1.0)
      && !(w[Slot(cellIndex, West)] && offsetX - radius < 0.0)
  }

  /** The corrected test accepts exactly the positions the source accepts
      without reading past the end, and rejects the two past-the-end places. */
  lemma LegalPositionCorrects(w: seq<bool>, x: real, y: real, radius: real)
    requires |w| == CellCount * NumSides
    ensures LegalPosition(w, x, y, radius) <==> Legality(w, x, y, radius) == Legal
  {
  }

  /** Two different cells hang from the tree by two different passages: the
      wall between a cell and its parent is never also the wall between
      another cell and its parent, since parents are strictly nearer the
      root. */
  lemma ParentWallsDistinct(w: seq<bool>, v: seq<bool>, ps: seq<int>, depth: seq<nat>, root: int, u: int, u': int)
    requires |w| == CellCount * NumSides && |v| == CellCount && |ps| == CellCount && |depth| == CellCount
    requires 0 <= u < CellCount && 0 <= u' < CellCount && u != u'
    requires ParentLink(w, v, ps, depth, u) && ParentLink(w, v, ps, depth, u')
    ensures !(GridNeighbor(u, ps[u]) == u' && GridNeighbor(u', ps[u']) == u)
  {
  }

  /** A freshly initialised grid (every wall standing, nothing visited) is a
      valid entry for the carver started on the root cell 0. */
  lemma FreshGridEntry(w: seq<bool>, v: seq<bool>, ps: seq<int>, depth: seq<nat>)
    requires |w| == CellCount * NumSides && |v| == CellCount && |ps| == CellCount && |depth| == CellCount
    requires forall k :: 0 <= k < |w| ==> w[k]
    requires forall c :: 0 <= c < CellCount ==> !v[c]
    ensures CarveEntry(w, v, ps, depth, 0, TargetCell(0, 0))
    ensures FalseCount(w) == 0 && TrueCount(v) == 0
  {
    AllTrueCount(w);
    AllFalseCount(v);
  }

  /** What removeWalls(0, 0) leaves on a fresh grid: every cell visited,
      2 * (CellCount - 1) open wall flags, the carving invariants, every cell
      other than cell 0 with the wall to its parent (a cell strictly nearer
      cell 0) open, every open wall a wall between a cell and its parent, and
      every cell joined to cell 0 by open walls. */
  lemma CarvedFromRoot(w0: seq<bool>, v0: seq<bool>, w: seq<bool>, v: seq<bool>,
                       ps: seq<int>, depth: seq<nat>)
    requires |w0| == |w| == CellCount * NumSides && |v0| == |v| == CellCount
    requires |ps| == CellCount && |depth| == CellCount
    requires FalseCount(w0) == 0 && TrueCount(v0) == 0
    requires forall c :: 0 <= c < CellCount ==> !v0[c]
    requires CarveResult(w0, v0, w, v, ps, depth, 0, TargetCell(0, 0))
    ensures Carving(w, v, ps, depth, 0)
    ensures forall c :: 0 <= c < CellCount ==> v[c]
    ensures FalseCount(w) == 2 * (CellCount - 1)
    ensures forall u :: 0 < u < CellCount ==> ParentLink(w, v, ps, depth, u)
    ensures forall c, s :: 0 <= c < CellCount && 0 <= s < NumSides && !w[Slot(c, s)] ==>
              s < Top && TreeEdge(ps, 0, c, s)
    ensures forall u :: 0 <= u < CellCount ==> ReachesRoot(w, u, 0)
  {
    assert TargetCell(0, 0) == 0;
    ClosedReachesAll(v);
    AllTrueCount(v);
    MazeConnected(w, v, ps, depth, 0);
  }
}
