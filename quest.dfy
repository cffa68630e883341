/** The maze-generation core of HeroQuest3D/Quest.cpp: a quest owns an arena
    of DefaultMazeWidth x DefaultMazeHeight cells, links them to their grid
    neighbours, carves a maze by recursive backtracking from cell (0, 0),
    picks the start and finish columns, and textures the walls. */
module Quests {
  import opened Cells
  import opened Grid

  // HeroQuest3D/Quest.h: texture numbers advance by this much per quest.
  const TextureOffsetPerQuest := 4

  /** getTextureNo: the texture loaded as number `i`, or -1 when there is
      none. */
  function TextureNo(textures: seq<int>, i: int): (textureNo: int)
    ensures 0 <= i < |textures| ==> textureNo == textures[i]
    ensures !(0 <= i < |textures|) ==> textureNo == -1
  {
    if 0 <= i < |textures| then textures[i] else -1
  }

  /** The texture initialize gives side `side` of every cell: `wall` on the
      four cardinal sides, `floor` at the bottom, `ceiling` at the top. */
  function DefaultTexture(side: int, wall: int, floor: int, ceiling: int): (textureNo: int)
  {
    if side < Top then wall else if side == Bottom then floor else ceiling
  }

  /** Sides 0 to n - 1 of cell `c` painted with `wall`. */
  function PaintSides(tex: seq<int>, c: int, n: int, wall: int): (r: seq<int>)
    requires |tex| == CellCount * NumSides && 0 <= c < CellCount && 0 <= n <= NumSides
    ensures |r| == |tex|
    decreases n
  {
    if n == 0 then tex else PaintSides(tex, c, n - 1, wall)[Slot(c, n - 1) := wall]
  }

  /** One cell of initialize's texture loop. */
  function PaintCell(tex: seq<int>, c: int, wall: int, floor: int, ceiling: int): (r: seq<int>)
    requires |tex| == CellCount * NumSides && 0 <= c < CellCount
    ensures |r| == |tex|
  {
    PaintSides(tex, c, Top, wall)[Slot(c, Bottom) := floor][Slot(c, Top) := ceiling]
  }

  lemma PaintCellEffect(tex: seq<int>, c: int, wall: int, floor: int, ceiling: int)
    requires |tex| == CellCount * NumSides && 0 <= c < CellCount
    ensures forall s :: 0 <= s < NumSides ==>
              PaintCell(tex, c, wall, floor, ceiling)[Slot(c, s)] == DefaultTexture(s, wall, floor, ceiling)
    ensures forall d, s :: 0 <= d < CellCount && d != c && 0 <= s < NumSides ==>
              PaintCell(tex, c, wall, floor, ceiling)[Slot(d, s)] == tex[Slot(d, s)]
  {
  }

  /** Textures after the loop has passed every column before `i` and the
      first `j` rows of column `i`. */
  ghost predicate PaintedUpTo(tex: seq<int>, i: int, j: int, wall: int, floor: int, ceiling: int)
    requires |tex| == CellCount * NumSides
  {
    forall x, y, s :: InGrid(x, y) && (x < i || (x == i && y < j)) && 0 <= s < NumSides ==>
      tex[Slot(Index(x, y), s)] == DefaultTexture(s, wall, floor, ceiling)
  }

  lemma PaintedUpToStep(tex: seq<int>, i: int, j: int, wall: int, floor: int, ceiling: int)
    requires |tex| == CellCount * NumSides && InGrid(i, j) && PaintedUpTo(tex, i, j, wall, floor, ceiling)
    ensures PaintedUpTo(PaintCell(tex, Index(i, j), wall, floor, ceiling), i, j + 1, wall, floor, ceiling)
  {
    PaintCellEffect(tex, Index(i, j), wall, floor, ceiling);
  }

  /** The two door textures overwrite exactly the south side of cell `a` and
      the north side of cell `b`; every other side keeps its default. */
  lemma DoorsPainted(tex: seq<int>, a: int, b: int, wall: int, floor: int, ceiling: int, door: int)
    requires |tex| == CellCount * NumSides && 0 <= a < CellCount && 0 <= b < CellCount
    requires forall c, s :: 0 <= c < CellCount && 0 <= s < NumSides ==>
               tex[Slot(c, s)] == DefaultTexture(s, wall, floor, ceiling)
    ensures var tex' := tex[Slot(a, South) := door][Slot(b, North) := door];
            forall c, s :: 0 <= c < CellCount && 0 <= s < NumSides ==>
              tex'[Slot(c, s)] ==
                if (c, s) == (a, South) || (c, s) == (b, North) then door
                else DefaultTexture(s, wall, floor, ceiling)
  {
  }

  lemma PaintedUpToEnd(tex: seq<int>, wall: int, floor: int, ceiling: int)
    requires |tex| == CellCount * NumSides && PaintedUpTo(tex, DefaultMazeWidth, 0, wall, floor, ceiling)
    ensures forall c, s :: 0 <= c < CellCount && 0 <= s < NumSides ==>
              tex[Slot(c, s)] == DefaultTexture(s, wall, floor, ceiling)
  {
    forall c, s | 0 <= c < CellCount && 0 <= s < NumSides
      ensures tex[Slot(c, s)] == DefaultTexture(s, wall, floor, ceiling)
    {
      CoordinatesIndex(c);
    }
  }

  /** removeWalls(0, 0) starts the carve at cell 0, the root of its tree. */
  const CarveRoot := 0

  class Quest {
    const questNo: int
    const width: int
    const height: int
    const perspective: int
    var startX: int
    var finishX: int
    const cells: CellArena
    /** The carver's spanning tree: the side through which each visited cell
        was entered, and its distance from CarveRoot. */
    ghost var parentSide: seq<int>
    ghost var depth: seq<nat>

    /** The arena holds one cell per grid position and every cell is linked
        to its grid neighbours. */
    ghost predicate Linked()
      reads cells, cells.neighbors
    {
      Shaped() && GridLinked(cells.neighbors[..])
    }

    /** The quest has the default dimensions and an arena of one cell per
        grid position. */
    ghost predicate Shaped()
      reads cells, cells.neighbors
    {
      && width == DefaultMazeWidth && height == DefaultMazeHeight
      && cells.Valid() && cells.count == CellCount
    }

    /** The carver's ghost tree covers every cell. */
    ghost predicate TreeSized()
      reads this
    {
      |parentSide| == CellCount && |depth| == CellCount
    }

    /** A finished maze: every cell visited; every cell but cell 0 has the
        wall to its parent, a cell nearer cell 0, open, and every open wall is
        such a parent wall (Carving); 2 * (CellCount - 1) wall flags are open;
        the outer walls, floors and ceilings are intact; and the start and
        finish columns lie on the grid. */
    ghost predicate Generated()
      reads this, cells, cells.neighbors, cells.walls, cells.visited
    {
      && Linked() && TreeSized()
      && Carving(cells.walls[..], cells.visited[..], parentSide, depth, CarveRoot)
      && (forall c :: 0 <= c < CellCount ==> cells.visited[c])
      && FalseCount(cells.walls[..]) == 2 * (CellCount - 1)
      && 0 <= startX < width && 0 <= finishX < width
    }

    /** What a character needs of its quest: linked cells, outer walls that
        stand, and a start column on the grid. */
    ghost predicate Playable()
      reads this, cells, cells.neighbors, cells.walls
    {
      Linked() && BoundaryIntact(cells.walls[..]) && 0 <= startX < width
    }

    /** Characters are placed once the maze is generated (initializeCharacters
        runs last in initialize): a generated quest is playable. */
    lemma GeneratedIsPlayable()
      requires Generated()
      ensures Playable()
    {
    }

    /** Quest(questNo, width, height, perspective) and initialize: builds the
        cells, carves the maze from (0, 0), draws the start and finish
        columns from `startDraw` and `finishDraw` (the two `rand()` results),
        and sets the textures, `textures` standing for main.cpp's texture table. */
    constructor (questNo: int, width: int, height: int, perspective: int,
                 startDraw: nat, finishDraw: nat, textures: seq<int>)
      requires width == DefaultMazeWidth && height == DefaultMazeHeight
      ensures this.questNo == questNo && this.width == width && this.height == height
      ensures this.perspective == perspective
      ensures Generated()
      ensures forall u :: 0 <= u < CellCount ==> ReachesRoot(cells.walls[..], u, CarveRoot)
      ensures startX == startDraw % width && finishX == finishDraw % width
      ensures cells.walls[Slot(Index(startX, 0), South)]
      ensures cells.walls[Slot(Index(finishX, height - 1), North)]
      ensures var t := TextureOffsetPerQuest * (questNo - 1);
              forall c, s :: 0 <= c < CellCount && 0 <= s < NumSides ==>
                cells.textures[Slot(c, s)] ==
                  if (c, s) == (Index(startX, 0), South) || (c, s) == (Index(finishX, height - 1), North)
                  then TextureNo(textures, t + 3)
                  else DefaultTexture(s, TextureNo(textures, t), TextureNo(textures, t + 1), TextureNo(textures, t + 2))
    {
      this.questNo := questNo;
      this.width := width;
      this.height := height;
      this.perspective := perspective;
      startX := 0;
      finishX := 0;
      cells := new CellArena(width * height);
      new;
      Initialize(startDraw, finishDraw, textures);
    }

    /** initialize: builds the maze, then textures it. */
    method Initialize(startDraw: nat, finishDraw: nat, textures: seq<int>)
      requires width == DefaultMazeWidth && height == DefaultMazeHeight
      requires cells.Valid() && cells.count == CellCount
      modifies cells.walls, cells.neighbors, cells.textures, cells.visited
      modifies this`parentSide, this`depth, this`startX, this`finishX
      ensures Generated()
      ensures forall u :: 0 <= u < CellCount ==> ReachesRoot(cells.walls[..], u, CarveRoot)
      ensures startX == startDraw % width && finishX == finishDraw % width
      ensures cells.walls[Slot(Index(startX, 0), South)]
      ensures cells.walls[Slot(Index(finishX, height - 1), North)]
      ensures var t := TextureOffsetPerQuest * (questNo - 1);
              forall c, s :: 0 <= c < CellCount && 0 <= s < NumSides ==>
                cells.textures[Slot(c, s)] ==
                  if (c, s) == (Index(startX, 0), South) || (c, s) == (Index(finishX, height - 1), North)
                  then TextureNo(textures, t + 3)
                  else DefaultTexture(s, TextureNo(textures, t), TextureNo(textures, t + 1), TextureNo(textures, t + 2))
    {
      GenerateMaze(startDraw, finishDraw);
      SetQuestTextures(textures);
    }

    /** The texturing half of initialize: every side of every cell gets the
        quest's default texture for its kind (wall, floor, ceiling), then the
        south side of the start cell and the north side of the finish cell
        get the door texture. */
    method SetQuestTextures(textures: seq<int>)
      requires Shaped() && 0 <= startX < width && 0 <= finishX < width
      modifies cells.textures
      ensures old(Generated()) ==> Generated()
      ensures cells.walls[..] == old(cells.walls[..])
      ensures var t := TextureOffsetPerQuest * (questNo - 1);
              forall c, s :: 0 <= c < CellCount && 0 <= s < NumSides ==>
                cells.textures[Slot(c, s)] ==
                  if (c, s) == (Index(startX, 0), South) || (c, s) == (Index(finishX, height - 1), North)
                  then TextureNo(textures, t + 3)
                  else DefaultTexture(s, TextureNo(textures, t), TextureNo(textures, t + 1), TextureNo(textures, t + 2))
    {
      var t := TextureOffsetPerQuest * (questNo - 1);
      SetDefaultTextures(TextureNo(textures, t), TextureNo(textures, t + 1), TextureNo(textures, t + 2));
      ghost var tex := cells.textures[..];
      SetDoorTextures(TextureNo(textures, t + 3));
      DoorsPainted(tex, Index(startX, 0), Index(finishX, DefaultMazeHeight - 1),
                   TextureNo(textures, t), TextureNo(textures, t + 1), TextureNo(textures, t + 2), TextureNo(textures, t + 3));
    }

    /** The maze-building half of initialize: initializeCells, removeWalls
        from (0, 0), then setStartAndFinish.  The result is a generated maze
        in which every cell reaches cell 0 through open walls. */
    method GenerateMaze(startDraw: nat, finishDraw: nat)
      requires width == DefaultMazeWidth && height == DefaultMazeHeight
      requires cells.Valid() && cells.count == CellCount
      modifies cells.walls, cells.neighbors, cells.textures, cells.visited
      modifies this`parentSide, this`depth, this`startX, this`finishX
      ensures Generated()
      ensures forall u :: 0 <= u < CellCount ==> ReachesRoot(cells.walls[..], u, CarveRoot)
      ensures startX == startDraw % width && finishX == finishDraw % width
      ensures cells.walls[Slot(Index(startX, 0), South)]
      ensures cells.walls[Slot(Index(finishX, height - 1), North)]
      ensures forall k :: 0 <= k < cells.textures.Length ==> cells.textures[k] == 0
    {
      var _ := InitializeCells();
      ghost var w0, v0 := cells.walls[..], cells.visited[..];
      ghost var ps0: seq<int>, dp0: seq<nat> := seq(CellCount, _ => 0), seq(CellCount, _ => 0);
      FreshGridEntry(w0, v0, ps0, dp0);
      var _, ps, dp := RemoveWalls(0, 0, ps0, dp0);
      parentSide, depth := ps, dp;
      CarvedFromRoot(w0, v0, cells.walls[..], cells.visited[..], parentSide, depth);
      SetStartAndFinish(startDraw, finishDraw);
      DoorWallsStanding(cells.walls[..], startX, finishX);
    }

    /** initializeCells: a fresh cell (all walls, no links, unvisited) in
        every slot of the arena, then assignNeighbors on every grid position;
        returns the number of cells created.  The arena is allocated once,
        with width * height slots, by the constructor. */
    method InitializeCells() returns (nCells: int)
      requires width == DefaultMazeWidth && height == DefaultMazeHeight
      requires cells.Valid() && cells.count == CellCount
      modifies cells.walls, cells.neighbors, cells.textures, cells.visited
      ensures nCells == CellCount
      ensures Linked()
      ensures forall k :: 0 <= k < cells.walls.Length ==> cells.walls[k]
      ensures forall k :: 0 <= k < cells.visited.Length ==> !cells.visited[k]
      ensures forall k :: 0 <= k < cells.textures.Length ==> cells.textures[k] == 0
    {
      nCells := 0;
      for i := 0 to width
        invariant cells.Valid() && cells.count == CellCount
        invariant nCells == i * height
        invariant forall c, s :: 0 <= c < nCells && 0 <= s < NumSides ==>
                    cells.walls[Slot(c, s)] && cells.neighbors[Slot(c, s)] == NoNeighbor
        invariant forall c :: 0 <= c < nCells ==> !cells.visited[c]
        invariant forall c, s :: 0 <= c < nCells && 0 <= s < NumSides ==> cells.textures[Slot(c, s)] == 0
      {
        for j := 0 to height
          invariant cells.Valid() && cells.count == CellCount
          invariant nCells == i * height + j
          invariant forall c, s :: 0 <= c < nCells && 0 <= s < NumSides ==>
                      cells.walls[Slot(c, s)] && cells.neighbors[Slot(c, s)] == NoNeighbor
          invariant forall c :: 0 <= c < nCells ==> !cells.visited[c]
          invariant forall c, s :: 0 <= c < nCells && 0 <= s < NumSides ==> cells.textures[Slot(c, s)] == 0
        {
          cells.InitCell(nCells);
          nCells := nCells + 1;
        }
      }
      forall k | 0 <= k < cells.walls.Length
        ensures cells.walls[k] && cells.neighbors[k] == NoNeighbor && cells.textures[k] == 0
      {
        assert k == Slot(k / NumSides, k % NumSides);
      }
      LinkedUpToStart(cells.neighbors[..]);
      for i := 0 to DefaultMazeWidth
        invariant cells.Valid() && cells.count == CellCount
        invariant forall k :: 0 <= k < cells.walls.Length ==> cells.walls[k]
        invariant forall k :: 0 <= k < cells.visited.Length ==> !cells.visited[k]
        invariant forall k :: 0 <= k < cells.textures.Length ==> cells.textures[k] == 0
        invariant LinkedUpTo(cells.neighbors[..], i, 0)
      {
        for j := 0 to DefaultMazeHeight
          invariant cells.Valid() && cells.count == CellCount
          invariant forall k :: 0 <= k < cells.walls.Length ==> cells.walls[k]
          invariant forall k :: 0 <= k < cells.visited.Length ==> !cells.visited[k]
          invariant forall k :: 0 <= k < cells.textures.Length ==> cells.textures[k] == 0
          invariant LinkedUpTo(cells.neighbors[..], i, j)
        {
          ghost var nb := cells.neighbors[..];
          var _ := AssignNeighbors(i, j);
          LinkedUpToStep(nb, i, j);
        }
        assert LinkedUpTo(cells.neighbors[..], i + 1, 0);
      }
      LinkedUpToEnd(cells.neighbors[..]);
    }

    /** assignNeighbors(x, y): rejects a position off the grid with -1;
        otherwise links every side of cell (x, y) that has a grid neighbour
        to it, four times over as the source's loop does, and returns the
        number of links made. */
    method AssignNeighbors(x: int, y: int) returns (nNeighbors: int)
      requires cells.Valid() && cells.count == CellCount && width == DefaultMazeWidth
      modifies cells.neighbors
      ensures cells.Valid()
      ensures !InGrid(x, y) ==> nNeighbors == -1 && cells.neighbors[..] == old(cells.neighbors[..])
      ensures InGrid(x, y) ==> nNeighbors == 4 * InGridNeighborCount(x, y)
      ensures InGrid(x, y) ==> cells.neighbors[..] == LinkCell(old(cells.neighbors[..]), Index(x, y))
    {
      nNeighbors := 0;
      if x < 0 || y < 0 || x >= DefaultMazeWidth || y >= DefaultMazeHeight {
        return -1;
      }
      ghost var c := Index(x, y);
      ghost var count := InGridNeighborCount(x, y);
      ghost var nb0 := cells.neighbors[..];
      for i := 0 to 4
        invariant cells.Valid()
        invariant nNeighbors == i * count
        invariant cells.neighbors[..] == if i == 0 then nb0 else LinkCell(nb0, c)
      {
        var made := LinkSides(x, y);
        nNeighbors := nNeighbors + made;
        LinkCellIdempotent(nb0, c);
        assert (i + 1) * count == i * count + count;
      }
    }

    /** One pass of assignNeighbors' loop on cell (x, y): each side with a
        grid neighbour is linked to it; returns the number of links made. */
    method LinkSides(x: int, y: int) returns (made: int)
      requires cells.Valid() && cells.count == CellCount && width == DefaultMazeWidth && InGrid(x, y)
      modifies cells.neighbors
      ensures cells.Valid()
      ensures made == InGridNeighborCount(x, y)
      ensures cells.neighbors[..] == LinkCell(old(cells.neighbors[..]), Index(x, y))
    {
      GridNeighborInGrid(x, y);
      IndexCoordinates(x, y);
      ghost var c := Index(x, y);
      ghost var nb := cells.neighbors[..];
      made := 0;
      if x - 1 >= 0 {
        var _ := cells.SetNeighbor(x + y * width, West, x - 1 + y * width);
        made := made + 1;
      }
      assert cells.neighbors[..] == LinkSide(nb, c, West);
      if x + 1 < DefaultMazeWidth {
        var _ := cells.SetNeighbor(x + y * width, East, x + 1 + y * width);
        made := made + 1;
      }
      assert cells.neighbors[..] == LinkSide(LinkSide(nb, c, West), c, East);
      if y - 1 >= 0 {
        var _ := cells.SetNeighbor(x + y * width, South, x + (y - 1) * width);
        made := made + 1;
      }
      assert cells.neighbors[..] == LinkSide(LinkSide(LinkSide(nb, c, West), c, East), c, South);
      if y + 1 < DefaultMazeHeight {
        var _ := cells.SetNeighbor(x + y * width, North, x + (y + 1) * width);
        made := made + 1;
      }
    }

    /** removeWalls(i, j): rejects a position off the grid with -1 and
        changes nothing; otherwise visits cell (i, j) and, while
        removeRandomWall finds a wall into an unvisited neighbour, carves
        through it and recurses into that neighbour, then returns 0.  Every
        wall it opens is the wall between a newly visited cell and its parent,
        two wall flags per newly visited cell, and every cell the call visits
        ends with all of its neighbours visited (CarveResult). */
    method RemoveWalls(i: int, j: int, ghost ps: seq<int>, ghost dp: seq<nat>)
      returns (result: int, ghost ps': seq<int>, ghost dp': seq<nat>)
      requires Linked() && |ps| == CellCount && |dp| == CellCount
      requires CarveEntry(cells.walls[..], cells.visited[..], ps, dp, CarveRoot, TargetCell(i, j))
      modifies cells.walls, cells.visited
      ensures |ps'| == CellCount && |dp'| == CellCount
      ensures result == if InGrid(i, j) then 0 else -1
      ensures !InGrid(i, j) ==>
                cells.walls[..] == old(cells.walls[..]) && cells.visited[..] == old(cells.visited[..])
      ensures CarveResult(old(cells.walls[..]), old(cells.visited[..]), cells.walls[..], cells.visited[..],
                          ps', dp', CarveRoot, TargetCell(i, j))
      decreases CellCount - TrueCount(cells.visited[..])
                + (if InGrid(i, j) && cells.visited[Index(i, j)] then 1 else 0), 1
    {
      ps', dp' := ps, dp;
      var cellIndex := i + j * width;
      if i < 0 || j < 0 || i >= DefaultMazeWidth || j >= DefaultMazeHeight {
        CarveRejected(cells.walls[..], cells.visited[..], ps, dp, CarveRoot);
        return -1, ps', dp';
      }
      IndexCoordinates(i, j);
      GridLinkedInRange(cells.neighbors[..]);
      ghost var w0, v0 := cells.walls[..], cells.visited[..];
      var _ := cells.SetVisited(cellIndex, true);
      CarveBegin(w0, v0, ps, dp, CarveRoot, cellIndex);

      while true
        invariant |ps'| == CellCount && |dp'| == CellCount
        invariant CarveProgress(w0, v0, cells.walls[..], cells.visited[..], ps', dp', CarveRoot, cellIndex)
        decreases CellCount - TrueCount(cells.visited[..])
      {
        ghost var w, v, nb := cells.walls[..], cells.visited[..], cells.neighbors[..];
        var wall := cells.RemoveRandomWall(cellIndex);
        if wall < 0 {
          assert cells.walls[..] == w && cells.visited[..] == v;
          NoCandidateOnGrid(w, nb, v, cellIndex);
          CarveEnd(w0, v0, w, v, ps', dp', CarveRoot, cellIndex);
          break;
        }
        CarveReady(w0, v0, w, nb, v, ps', dp', CarveRoot, cellIndex, wall);
        assert cells.walls[..] == Carved(w, cellIndex, wall) && cells.visited[..] == v;
        ghost var ps1, dp1 := ps', dp';
        ghost var n := GridNeighbor(cellIndex, wall);
        ps', dp' := Descend(i, j, wall, cellIndex, n, Carved(w, cellIndex, wall), v,
                            ps1[n := OppositeSide(wall)], dp1[n := dp1[cellIndex] + 1]);
        CarveChild(w0, v0, w, v, ps1, dp1, CarveRoot, cellIndex, wall,
                   cells.walls[..], cells.visited[..], ps', dp');
      }
      result := 0;
    }

    /** The switch in removeWalls' loop: `wall` of cell (i, j), index `c`,
        has just been opened into the unvisited neighbour `n` behind it,
        which `ps` and `dp` already record as a child of `c` in the carver's
        tree; recurse into that neighbour. */
    method Descend(i: int, j: int, wall: int, ghost c: int, ghost n: int, ghost w: seq<bool>,
                   ghost v: seq<bool>, ghost ps: seq<int>, ghost dp: seq<nat>)
      returns (ghost ps': seq<int>, ghost dp': seq<nat>)
      requires Linked() && InGrid(i, j) && c == Index(i, j) && 0 <= wall < Top
      requires n == GridNeighbor(c, wall) && n != NoNeighbor
      requires |ps| == CellCount && |dp| == CellCount
      requires cells.walls[..] == w && cells.visited[..] == v && !v[n]
      requires CarveEntry(w, v, ps, dp, CarveRoot, n)
      modifies cells.walls, cells.visited
      ensures |ps'| == CellCount && |dp'| == CellCount
      ensures CarveResult(w, v, cells.walls[..], cells.visited[..], ps', dp', CarveRoot, n)
      decreases CellCount - TrueCount(cells.visited[..]) + 1, 0
    {
      var nextI, nextJ := i - 1, j;
      if wall == North {
        nextI, nextJ := i, j + 1;
      } else if wall == South {
        nextI, nextJ := i, j - 1;
      } else if wall == East {
        nextI, nextJ := i + 1, j;
      }
      SwitchTarget(i, j, wall, nextI, nextJ);
      var _, ps2, dp2 := RemoveWalls(nextI, nextJ, ps, dp);
      ps', dp' := ps2, dp2;
    }

    /** setStartAndFinish: the start and finish columns, each a draw reduced
        modulo the width. */
    method SetStartAndFinish(startDraw: nat, finishDraw: nat)
      requires width > 0
      modifies this`startX, this`finishX
      ensures startX == startDraw % width && finishX == finishDraw % width
      ensures 0 <= startX < width && 0 <= finishX < width
    {
      startX := startDraw % width;
      finishX := finishDraw % width;
    }

    /** The texture loop of initialize: every cell's cardinal sides, floor
        and ceiling get their quest's default textures. */
    method SetDefaultTextures(wall: int, floor: int, ceiling: int)
      requires Shaped()
      modifies cells.textures
      ensures forall c, s :: 0 <= c < CellCount && 0 <= s < NumSides ==>
                cells.textures[Slot(c, s)] == DefaultTexture(s, wall, floor, ceiling)
    {
      for i := 0 to DefaultMazeWidth
        invariant PaintedUpTo(cells.textures[..], i, 0, wall, floor, ceiling)
      {
        for j := 0 to DefaultMazeHeight
          invariant PaintedUpTo(cells.textures[..], i, j, wall, floor, ceiling)
        {
          IndexCoordinates(i, j);
          ghost var c := Index(i, j);
          ghost var tex := cells.textures[..];
          for side := 0 to 4
            invariant cells.textures[..] == PaintSides(tex, c, side, wall)
          {
            var _ := cells.SetTexture(i + j * width, side, wall);
          }
          var _ := cells.SetTexture(i + j * width, Bottom, floor);
          var _ := cells.SetTexture(i + j * width, Top, ceiling);
          PaintedUpToStep(tex, i, j, wall, floor, ceiling);
        }
      }
      PaintedUpToEnd(cells.textures[..], wall, floor, ceiling);
    }

    /** The door textures of initialize: the south side of the start cell in
        the bottom row and the north side of the finish cell in the top
        row. */
    method SetDoorTextures(door: int)
      requires Shaped() && 0 <= startX < width && 0 <= finishX < width
      modifies cells.textures
      ensures cells.textures[..] ==
                old(cells.textures[..])[Slot(Index(startX, 0), South) := door]
                                       [Slot(Index(finishX, DefaultMazeHeight - 1), North) := door]
    {
      var _ := cells.SetTexture(startX, South, door);
      var _ := cells.SetTexture(finishX + (height - 1) * width, North, door);
    }

    /** isLegalPosition on this quest's walls: a position it accepts is one
        the corrected test accepts too. */
    function IsLegalPosition(x: real, y: real, radius: real): (v: Verdict)
      requires Linked()
      reads this, cells, cells.neighbors, cells.walls
      ensures v == Legal <==> LegalPosition(cells.walls[..], x, y, radius)
    {
      LegalPositionCorrects(cells.walls[..], x, y, radius);
      Legality(cells.walls[..], x, y, radius)
    }
  }
}
