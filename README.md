# HeroQuest 3D maze and movement core, in Dafny

This project models the core of HeroQuest 3D, a first-person maze game written in C++. The model covers three parts.

- **The cell model** (`src/cell.cc`, module `Cells`).
  - A cell has six walls (north, south, east, west, top, bottom), six optional neighbour links, six texture numbers and a visited flag.
  - `removeWall` clears a wall and, through the neighbour link, the matching wall of the neighbour.
  - `removeRandomWall` breaks through a random cardinal wall into an unvisited neighbour.
  - The cells of a maze live in one arena (`Cells.CellArena`). Flat arrays hold the walls, links, textures and visited flags. Side `s` of cell `c` is slot `c * 6 + s`, and a NULL neighbour pointer is the index `-1`.
- **The quest's maze generator** (`HeroQuest3D/Quest.cpp`, modules `Grid` and `Quests`).
  - `initializeCells` builds a 26 x 19 grid of fresh cells indexed by `x + y * width`, and `assignNeighbors` links each cell to its grid neighbours.
  - `removeWalls(0, 0)` carves a maze by recursive backtracking. `setStartAndFinish` draws the entry and exit columns, and `initialize` textures the walls.
  - `isLegalPosition` decides whether a disc of a given radius at a point crosses a wall of the cell it stands in.
  - The model proves that the carved maze is a spanning tree rooted at cell (0, 0):
    - every cell is visited, and 986 wall flags are open;
    - each of the other 493 cells has the wall to its parent open, and its parent is strictly nearer the root;
    - distinct cells have distinct parent walls, and every open wall is a parent wall, so the open walls are exactly 493 passages and none of them closes a cycle;
    - every cell is joined to cell (0, 0) by a path through opened walls.

    Shared walls stay consistent on both sides, and the outer walls stay intact, among them the two door walls.
- **Character kinematics** (`HeroQuest3D/Character.cpp`, module `Characters`).
  - Moving forward or backward and strafing commit each axis separately, and only when `isLegalPosition` accepts the new point. The y test uses the already updated x.
  - Jumping and falling form a small state machine over the height and the vertical velocity. Rotating changes a heading counter.
  - A non-player character's `act` steps forward when both axis probes are accepted and otherwise turns right.
  - Every move keeps a character at a legal position. A jump from rest lands after exactly 25 falls.

Coordinates are real numbers. `(int) x` is `Floor` wherever its result is used, because negative coordinates are rejected before `cells_` is read. The cosine and sine of a heading in degrees are functions given to each character, known only to lie in [-1, 1]. Each `rand()` result is a parameter (`startDraw`, `xDraw`, ...) or, in `removeRandomWall`, a choice among the candidate sides. `main.cpp`'s texture table is a sequence parameter of the quest.

The cell queries `hasBeenVisited`, `hasWallAt` and `hasNeighborAt` (src/cell.cc:153-186) are the read-only functions `Cells.CellArena.HasBeenVisited`, `HasWallAt` and `HasNeighborAt`. Their `reads` clauses are their whole contract, so they have no row below.

`isLegalPosition` tests the walls with strict comparisons (`offsetY + radius > 1.0`, HeroQuest3D/Quest.cpp:423-446), so at the centre of a fully walled cell a radius of exactly 0.5 touches the walls without crossing them and is legal. `Grid.WalledCentreThreshold` proves that the centre is legal exactly when the radius is at most 0.5.

## Model

| member | source | states |
|---|---|---|
| Cells.OppositeSide | src/cell.cc:355-380 | a valid side maps to a different valid side of the same kind (cardinal to cardinal, top/bottom to top/bottom); any other value maps to -1 |
| Cells.OppositeSideInvolution | src/cell.cc:355-380 | the opposite of the opposite of a valid side is that side |
| Cells.CellArena.constructor | HeroQuest3D/Quest.cpp:132-140 | storage for exactly n cells: six wall, link and texture slots per cell and one visited flag, every link NULL |
| Cells.CellArena.InitCell | src/cell.cc:22-29 | the cell gets all six walls, no neighbour, texture 0 on every side and is unvisited; every other cell's slots are unchanged |
| Cells.CellArena.SetVisited | src/cell.cc:52-54 | stores the flag for this cell only and returns the value stored |
| Cells.CellArena.SetTexture | src/cell.cc:67-69 | stores the texture on this side of this cell only and returns it |
| Cells.CellArena.SetNeighbor | src/cell.cc:83-85 | records a one-way link on this side only and returns it; the arena stays well formed |
| Cells.RemoveWallSpec | src/cell.cc:99-106 | removeWall's effect: the wall is cleared, a linked neighbour's opposite wall is cleared, no flag is ever set, and the recursion ends because each call clears a present wall first |
| Cells.CellArena.RemoveWall | src/cell.cc:99-106 | the recursive method changes only wall flags, and leaves exactly the flags of RemoveWallSpec |
| Cells.RemoveWallOnLinkedPair | src/cell.cc:99-106 | with a neighbour linked back, exactly this wall and the neighbour's opposite wall are cleared |
| Cells.RemoveWallWithoutNeighbor | src/cell.cc:99-106 | without a neighbour, only this one wall is cleared |
| Cells.RemoveWallIdempotent | src/cell.cc:99-106 | removing the same wall twice leaves what removing it once leaves |
| Cells.CandidateCountPositive | src/cell.cc:124-128 | the counted number of candidate sides is positive exactly when some side has a wall, a neighbour and an unvisited neighbour |
| Cells.CellArena.RemoveRandomWall | src/cell.cc:121-142 | returns -1 exactly when no cardinal side is a candidate, and then changes nothing; otherwise returns a cardinal side that was a candidate and removes that wall as removeWall does |
| Grid.IndexCoordinates | HeroQuest3D/Quest.cpp:242 | the index x + y * width of a grid position lies in the vector and gives back its column and row |
| Grid.CoordinatesIndex | HeroQuest3D/Quest.cpp:242 | every vector index is the index of the grid position (c % 26, c / 26), and of no other grid position |
| Grid.GridNeighbor | HeroQuest3D/Quest.cpp:199-225 | a link names another cell of the grid and exists only on a cardinal side |
| Grid.GridNeighborInGrid | HeroQuest3D/Quest.cpp:199-225 | west, east, south and north are linked to (x-1, y), (x+1, y), (x, y-1) and (x, y+1) exactly when those lie on the grid, so boundary sides get no link |
| Grid.GridNeighborReciprocal | HeroQuest3D/Quest.cpp:199-225 | links are reciprocal: the neighbour on a side has this cell as its neighbour on the opposite side |
| Grid.LinkCellEffect | HeroQuest3D/Quest.cpp:201-224 | one pass of assignNeighbors' loop sets every side of the cell that has a grid neighbour and touches no other cell |
| Grid.LinkCellIdempotent | HeroQuest3D/Quest.cpp:199-226 | a second pass changes nothing, so four passes link as much as one |
| Grid.LinkedUpToEnd | HeroQuest3D/Quest.cpp:141-149 | after the loop over every grid position, every side of every cell carries exactly its grid link |
| Grid.CarvedKeepsReciprocal | HeroQuest3D/Quest.cpp:251-268 | opening a wall into a neighbour keeps every shared wall the same on both sides |
| Grid.CarvedKeepsBoundary | HeroQuest3D/Quest.cpp:251-268 | opening a wall into a neighbour never opens an outer wall, floor or ceiling |
| Grid.CarveStep | HeroQuest3D/Quest.cpp:251-268 | one carve into an unvisited neighbour keeps reciprocity, the intact boundary, the tree and "every open wall is a parent wall"; it opens exactly two wall flags and hangs the neighbour from the current cell |
| Grid.NoCandidateMeansNeighborsVisited | HeroQuest3D/Quest.cpp:251 | once no cardinal side of a cell is a candidate, all of its grid neighbours are visited |
| Grid.CarveRejected | HeroQuest3D/Quest.cpp:244-247 | a position off the grid leaves a state that meets the carver's postcondition |
| Grid.CarveBegin | HeroQuest3D/Quest.cpp:249 | marking the cell visited starts the work on it with the carving invariants intact |
| Grid.CarveReady | HeroQuest3D/Quest.cpp:251-268 | the side removeRandomWall picks is a closed wall into an unvisited grid neighbour, removeWall opens exactly that passage, and the state meets what the recursive call requires |
| Grid.CarveChild | HeroQuest3D/Quest.cpp:253-267 | after the recursive call returns, the work on the cell resumes with strictly more cells visited |
| Grid.CarveEnd | HeroQuest3D/Quest.cpp:251 | when the loop ends, the call has met its postcondition: the cell and every cell it visited have all their neighbours visited |
| Grid.ClosedReachesAll | HeroQuest3D/Quest.cpp:240-273 | a visited set that holds cell 0 and every neighbour of each of its cells is the whole grid |
| Grid.PathToRoot | HeroQuest3D/Quest.cpp:240-273 | following parents leads every visited cell to the root through opened walls |
| Grid.MazeConnected | HeroQuest3D/Quest.cpp:240-273 | in a carved grid every cell is joined to the root by a path through opened walls |
| Grid.FreshGridEntry | HeroQuest3D/Quest.cpp:68-69 | a fully walled, unvisited grid meets the carver's precondition for removeWalls(0, 0) |
| Grid.CarvedKeepsOpenIsParent | HeroQuest3D/Quest.cpp:251-268 | carving into an unvisited neighbour, which becomes the current cell's child, keeps every open wall a wall between a cell and its parent |
| Grid.ParentWallsDistinct | HeroQuest3D/Quest.cpp:240-273 | two different cells never hang from the tree by the same passage, because each parent is strictly nearer the root |
| Grid.CarvedFromRoot | HeroQuest3D/Quest.cpp:68-69 | after removeWalls(0, 0) on a fresh grid: every cell is visited; 986 wall flags are open; every cell but cell 0 has the wall to its parent open; every open wall is a cardinal wall between a cell and its parent; walls stay reciprocal with the boundary intact; every cell reaches cell 0 |
| Grid.DoorWallsStanding | HeroQuest3D/Quest.cpp:109-112 | with the boundary intact, the south wall of any cell in the first row and the north wall of any cell in the last row stand |
| Grid.Legality | HeroQuest3D/Quest.cpp:406-453 | isLegalPosition as written: a point outside [0, 26] x [0, 19] is rejected; the past-the-end answer comes only from index 494; a point is accepted exactly when it lies in the box, in a cell of the vector, and crosses none of that cell's present walls |
| Grid.ReadsPastEndExactly | HeroQuest3D/Quest.cpp:412-421 | the guard lets the one-past-the-end index through at exactly two places: the east edge of the top row, and the points (x, 19) with x in [0, 1) |
| Grid.EastEdgeAliasesNextRow | HeroQuest3D/Quest.cpp:408 | on the east edge x == 26, the index wraps to the first cell of the next row |
| Grid.EastEdgeIsIllegal | HeroQuest3D/Quest.cpp:408-446 | with the outer walls in place and a positive radius, that wrapped cell's west wall rejects the point |
| Grid.LegalIsInterior | HeroQuest3D/Quest.cpp:406-453 | with the outer walls in place, an accepted position keeps the radius inside the grid on both axes |
| Grid.StepFromLegalIsDefined | HeroQuest3D/Quest.cpp:412-421 | a step shorter than the radius from an accepted position never reaches the past-the-end read |
| Grid.CellCentreIsLegal | HeroQuest3D/Quest.cpp:423-446 | the centre of any cell is accepted for a radius of at most half a cell, whatever its walls |
| Grid.WalledCentreThreshold | HeroQuest3D/Quest.cpp:423-446 | in a cell walled on all four sides, the centre is accepted exactly when the radius is at most 0.5 |
| Grid.LegalPosition | HeroQuest3D/Quest.cpp:406-453 | the corrected test: an accepted position lies in the grid's box and its index names a cell of the vector |
| Grid.LegalPositionCorrects | HeroQuest3D/Quest.cpp:412-421 | the corrected test accepts exactly the positions the source accepts without reading past the end, and rejects the two past-the-end places |
| Quests.TextureNo | HeroQuest3D/main.cpp:220-226 | the texture loaded as number i when i indexes the table, and -1 otherwise |
| Quests.PaintCellEffect | HeroQuest3D/Quest.cpp:96-105 | one cell of the texture loop gets the wall texture on its four cardinal sides, the floor at the bottom and the ceiling at the top, and no other cell changes |
| Quests.PaintedUpToEnd | HeroQuest3D/Quest.cpp:90-107 | after the texture loop, every side of every cell has its default texture |
| Quests.DoorsPainted | HeroQuest3D/Quest.cpp:109-112 | the door texture overwrites exactly the start cell's south side and the finish cell's north side |
| Quests.Quest.constructor | HeroQuest3D/Quest.cpp:27-30 | a new quest keeps its arguments and holds a generated maze in which every cell reaches cell 0; start and finish are the draws modulo the width, their door walls stand, and every side has its texture |
| Quests.Quest.Initialize | HeroQuest3D/Quest.cpp:61-116 | builds the cells, carves from (0, 0), draws start and finish, then textures: the result is a generated, connected maze with standing door walls, default textures and the two door textures |
| Quests.Quest.GenerateMaze | HeroQuest3D/Quest.cpp:68-70 | initializeCells, removeWalls(0, 0) and setStartAndFinish in that order leave a spanning-tree maze with every cell joined to cell 0 and both door walls standing; every texture is still 0 |
| Quests.Quest.SetQuestTextures | HeroQuest3D/Quest.cpp:89-112 | every side gets the quest's texture for its kind (numbers 4 * (questNo - 1) to + 2), the two doors get number + 3, and no wall changes |
| Quests.Quest.SetDefaultTextures | HeroQuest3D/Quest.cpp:90-107 | every side of every cell gets the wall, floor or ceiling texture for its kind |
| Quests.Quest.SetDoorTextures | HeroQuest3D/Quest.cpp:109-112 | changes exactly the south side of cell startX and the north side of the finish cell in the last row |
| Quests.Quest.InitializeCells | HeroQuest3D/Quest.cpp:128-152 | returns width * height; every cell is fully walled, unvisited and has texture 0 on every side, and every side carries exactly its grid link |
| Quests.Quest.AssignNeighbors | HeroQuest3D/Quest.cpp:190-228 | a position off the 26 x 19 grid returns -1 and changes nothing; otherwise the cell's sides are linked to their grid neighbours and the result is four times their number |
| Quests.Quest.LinkSides | HeroQuest3D/Quest.cpp:201-224 | one pass of the loop links each side of the cell that has a grid neighbour to that neighbour, changes no other link, and makes as many links as there are such sides |
| Quests.Quest.RemoveWalls | HeroQuest3D/Quest.cpp:240-273 | returns -1 and changes nothing off the grid, else 0; the carving invariants hold (among them, every open wall is a parent wall); visits and openings only grow; the cell and every cell the call visits end with all neighbours visited; two wall flags open per newly visited cell |
| Quests.Quest.Descend | HeroQuest3D/Quest.cpp:253-268 | the switch recurses into exactly the neighbour behind the opened wall, already recorded as the opened cell's child, and meets the carver's postcondition for it |
| Grid.SwitchTarget | HeroQuest3D/Quest.cpp:253-266 | the coordinates each case of the switch passes to removeWalls name the grid neighbour behind the opened wall |
| Quests.Quest.SetStartAndFinish | HeroQuest3D/Quest.cpp:286-290 | start and finish are the two draws modulo the width, so both are columns of the grid |
| Quests.Quest.IsLegalPosition | HeroQuest3D/Quest.cpp:406-453 | on this quest's walls, a position is accepted exactly when the corrected test accepts it |
| Characters.IsPlayerType | HeroQuest3D/Character.cpp:300-303 | true exactly for the four player types, which precede the monster types |
| Characters.Stride | HeroQuest3D/Character.cpp:89-91 | a step along one axis covers at most movementRate in either direction |
| Characters.StepBack | HeroQuest3D/Character.cpp:154-155 | `p - c * movementRate_`, the target of a step against an axis, lies within movementRate of p |
| Characters.StepBackNegated | HeroQuest3D/Character.cpp:215 | `p - c * movementRate_ * -1.0`, the sign-flipped target the strafes use, lies within movementRate of p |
| Characters.CentreIsLegal | HeroQuest3D/Character.cpp:63-76 | the centre of any cell, where initialize places every character, is a legal position whatever the walls |
| Quests.Quest.GeneratedIsPlayable | HeroQuest3D/Quest.cpp:114-115 | once generated, a quest has linked cells, standing outer walls and a start column on the grid, all a character needs |
| Characters.Commit | HeroQuest3D/Character.cpp:132-142 | each coordinate ends either at its target or where it was |
| Characters.CommitKeepsLegal | HeroQuest3D/Character.cpp:136-141 | from a legal position in a maze with its outer walls intact, a move of at most one step per axis ends at a legal position, and neither probe reads past the end |
| Characters.ProbesDefined | HeroQuest3D/Character.cpp:353-354 | act's two probes from a legal position never read past the end |
| Characters.CommitOutcome | HeroQuest3D/Character.cpp:136-141 | when the first probe and the diagonal target are both accepted, the move reaches its target; when both probes are refused, it stays put |
| Characters.GroundedFallIdempotent | HeroQuest3D/Character.cpp:258-261 | fall on the ground rests the character, and falling again changes nothing |
| Characters.ArcAirborne | HeroQuest3D/Character.cpp:254-257 | before the 25th fall after a jump, the height is above the floor offset |
| Characters.ArcStep | HeroQuest3D/Character.cpp:254-257 | one airborne fall advances the closed-form height and velocity by one step |
| Characters.FallArc | HeroQuest3D/Character.cpp:236-262 | k falls after a jump from rest (k at most 25) give height 0.001 + (k + 1)(0.05 - 0.002 k) and velocity 0.05 - 0.004 k |
| Characters.JumpLands | HeroQuest3D/Character.cpp:236-262 | a jump from rest leaves the ground, stays airborne through 24 falls, is back at the floor offset after the 25th, and is at rest after the 26th |
| Characters.Character.constructor | HeroQuest3D/Character.cpp:51-77 | a character starts at rest on the floor: a player at the centre of the start cell facing 90 degrees, any other character at the centre of the drawn cell with the drawn heading, in both cases at a legal position; it asks of the quest only what every generated quest has (Playable) |
| Characters.Character.NextX | HeroQuest3D/Character.cpp:89-91 | the x after one forward step is at most movementRate from x |
| Characters.Character.NextY | HeroQuest3D/Character.cpp:103-105 | the y after one forward step is at most movementRate from y |
| Characters.Character.CommitMove | HeroQuest3D/Character.cpp:136-141 | x takes the target when (newX, y) is accepted, then y when (current x, newY) is accepted; the position stays legal and neither probe reads past the end |
| Characters.Character.MoveForward | HeroQuest3D/Character.cpp:132-142 | the guarded commit towards (getNextX, getNextY), keeping the position legal |
| Characters.Character.MoveBackward | HeroQuest3D/Character.cpp:153-163 | the guarded commit towards one step against the heading, keeping the position legal |
| Characters.Character.StrafeLeft | HeroQuest3D/Character.cpp:193-203 | the guarded commit towards one step to the left of the heading, keeping the position legal |
| Characters.Character.StrafeRight | HeroQuest3D/Character.cpp:214-224 | the guarded commit towards one step to the right of the heading, keeping the position legal |
| Characters.Character.Jump | HeroQuest3D/Character.cpp:236-241 | on or below the floor offset the velocity gains jumpRate and is added to the height; in the air nothing changes |
| Characters.Character.Fall | HeroQuest3D/Character.cpp:254-262 | in the air, gravity comes off the velocity and the velocity is added to the height; otherwise the character rests at the floor offset with zero velocity |
| Characters.Character.IsOnGround | HeroQuest3D/Character.cpp:315-321 | raises a height below the offset to it, leaves the height at or above the offset, and answers whether the character was at or below the offset |
| Characters.Character.RotateLeft | HeroQuest3D/Character.cpp:273-275 | the heading gains rotationRate and the position is unchanged |
| Characters.Character.RotateRight | HeroQuest3D/Character.cpp:286-288 | the heading loses rotationRate, undoing rotateLeft |
| Characters.Character.CanSee | HeroQuest3D/Character.cpp:334-336 | no character sees another |
| Characters.Character.Act | HeroQuest3D/Character.cpp:347-360 | a player does nothing; another character whose two forward probes are accepted moves forward without turning, and one whose probes are not both accepted turns right and stays put; the position stays legal |

## Left out

- Rendering: the `draw` methods of cells, quests and characters (src/cell.cc:201-340, HeroQuest3D/Quest.cpp:465-486, HeroQuest3D/Character.cpp:371-396). They only issue OpenGL calls.
- HeroQuest3D/main.cpp: window, input, camera and texture loading. It is not part of this model. `getTextureNo` becomes a lookup in the texture sequence given to the quest (`Quests.TextureNo`), which answers -1 outside the sequence.
- Quests.TextureNo: guards with the table's length. `getTextureNo`'s own guard is `i > NUM_TEXTURES` (HeroQuest3D/main.cpp:222), which lets i == 12 read one past the end of the 12-entry `gTextures`. That case is not reached while questNo stays within NUM_QUESTS = 3, because the largest index `initialize` asks for is 4 * 2 + 3 = 11.
- `moveToward` (HeroQuest3D/Character.cpp:174-182): its point is `atan` geometry, and it is unreachable because `canSee` always answers false. `Characters.Character.Act` proves that branch dead.
- `initializeCharacters` (HeroQuest3D/Quest.cpp:165-177), the last step of `initialize`: it constructs 30 goblins, each of which is `Characters.Character.constructor` with its own draws. The quest's character list is not modelled.
- The disabled ceiling-removal block (HeroQuest3D/Quest.cpp:73-87, inside `if (false)`) and the commented-out corner test (HeroQuest3D/Quest.cpp:447-450).
- The item files, `getNextZ`, the getters, `setPlayer`/`setPerspective`, the character's name, colour, height and combat fields, and the quest's player pointer. None of them takes part in generation or movement.
- IEEE-754 doubles are modelled as exact reals. Rounding in the rotations and in the jump arc, and the exact float `==` in `isOnGround`, are not modelled. The closed forms of `Characters.FallArc` hold for exact arithmetic.
- `cos` and `sin` of `rotation_ * PI / 180` are functions given to each character. They are known only to lie in [-1, 1], so the moves' properties hold for any trigonometry of that range.
- `rand()` is a parameter or a choice. Which candidate `removeRandomWall`'s rejection-sampling loop lands on is left open, and so is the distribution of the draws.
- The cell vector is allocated once with `width * height` slots, rather than cleared and refilled by `push_back`. Cells are modelled as arena slots, not heap objects, so the order of construction does not matter: every cell starts identical.
- Quests.Quest.constructor: requires the default dimensions 26 x 19, because `assignNeighbors` and `removeWalls` check against those constants rather than `width_` and `height_`.
- Characters.Character.Valid tracks the quest's walls, its links and its intact boundary, not the whole generated maze. Moves depend on nothing else.
- The movement rate, jump rate, rotation rate and collision radius that `Character::initialize` sets are constants, because no operation changes them.
- The rotation counter is unbounded, as in the source; it is never reduced modulo 360.

## Findings

| source | as written | input that shows it | evidently intended | confidence | as-written member | corrected member |
|---|---|---|---|---|---|---|
| HeroQuest3D/Quest.cpp:412-421 | the guard rejects `cellIndex > cells_.size()`, so `cellIndex == cells_.size()` (494) passes and the wall tests read one element past the end of the cell vector | x = 0.5, y = 19.0: both pass the box test, and cellIndex = 0 + 19 * 26 = 494 | reject `cellIndex >= cells_.size()` | high, not executed | Grid.ReadsPastEndExactly | Grid.LegalPosition |

`Grid.Legality` is the test as written. Its `ReadsPastEnd` answer marks the out-of-bounds read, and `Grid.ReadsPastEndExactly` proves where that answer arises. `Grid.LegalPosition` is the corrected test, and `Grid.LegalPositionCorrects` proves that it accepts exactly the positions the source accepts without reading past the end, and rejects the two past-the-end places. The characters' invariant (`Characters.Character.Valid`) is stated with the corrected test. `Characters.CommitKeepsLegal` and `Characters.ProbesDefined` then prove that a character never reaches the past-the-end read, because its probes stay within one step of a legal position.
