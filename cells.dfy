/** The cell model of src/cell.cc.
    A cell has six wall flags, six optional neighbour links, six texture
    numbers and a visited flag.  The maze keeps all of its cells in one arena:
    cell `c` owns the slots `Slot(c, side)` of the wall, neighbour and
    texture arrays and slot `c` of the visited array, and a neighbour link is
    the index of the other cell, or `NoNeighbor` where the source holds NULL. */
module Cells {

  // The Side enumeration (HeroQuest3D/Cell.h).
  const North := 0
  const South := 1
  const East := 2
  const West := 3
  const Top := 4
  const Bottom := 5
  const NumSides := 6

  /** The arena's stand-in for a NULL neighbour pointer. */
  const NoNeighbor := -1

  /** The arena slot holding side `side` of cell `c`. */
  function Slot(c: int, side: int): (slot: int)
  {
    c * NumSides + side
  }

  /** A slot determines its cell and side, so distinct (cell, side) pairs
      never share a slot. */
  lemma SlotParts(c: int, side: int)
    requires 0 <= side < NumSides
    ensures Slot(c, side) / NumSides == c && Slot(c, side) % NumSides == side
  {
  }

  /** oppositeSide: the side facing `side` across a wall, or -1 for a value
      that is not a side. */
  function OppositeSide(side: int): (r: int)
    ensures 0 <= side < NumSides ==> 0 <= r < NumSides && r != side && (side < Top <==> r < Top)
    ensures !(0 <= side < NumSides) ==> r == -1
  {
    if side == North then South
    else if side == South then North
    else if side == West then East
    else if side == East then West
    else if side == Top then Bottom
    else if side == Bottom then Top
    else -1
  }

  lemma OppositeSideInvolution(side: int)
    requires 0 <= side < NumSides
    ensures OppositeSide(OppositeSide(side)) == side
  {
  }

  /** Number of entries equal to `flag` in `s` from index `i` on. */
  function CountFrom(s: seq<bool>, i: nat, flag: bool): (n: nat)
    requires i <= |s|
    ensures n <= |s| - i
    decreases |s| - i
  {
    if i == |s| then 0 else (if s[i] == flag then 1 else 0) + CountFrom(s, i + 1, flag)
  }

  /** Every entry from `i` on is counted by exactly one of the two flags. */
  lemma {:induction false} CountFromSplit(s: seq<bool>, i: nat)
    requires i <= |s|
    ensures CountFrom(s, i, true) + CountFrom(s, i, false) == |s| - i
    decreases |s| - i
  {
    if i < |s| {
      CountFromSplit(s, i + 1);
    }
  }

  /** Number of `true` entries of a flag sequence. */
  function TrueCount(s: seq<bool>): (n: nat)
    ensures n <= |s|
  {
    CountFrom(s, 0, true)
  }

  /** Number of `false` entries of a flag sequence (open walls, unvisited cells). */
  function FalseCount(s: seq<bool>): (n: nat)
    ensures n + TrueCount(s) == |s|
  {
    CountFromSplit(s, 0);
    CountFrom(s, 0, false)
  }

  lemma {:induction false} CountFromUpdate(s: seq<bool>, j: nat, i: nat, b: bool)
    requires j <= |s| && i < |s|
    ensures CountFrom(s[i := b], j, true) ==
            CountFrom(s, j, true) - (if j <= i && s[i] then 1 else 0) + (if j <= i && b then 1 else 0)
    decreases |s| - j
  {
    if j < |s| {
      CountFromUpdate(s, j + 1, i, b);
    }
  }

  lemma TrueCountUpdate(s: seq<bool>, i: nat, b: bool)
    requires i < |s|
    ensures TrueCount(s[i := b]) ==
            TrueCount(s) - (if s[i] then 1 else 0) + (if b then 1 else 0)
  {
    CountFromUpdate(s, 0, i, b);
  }

  lemma {:induction false} CountFromMonotone(a: seq<bool>, b: seq<bool>, j: nat)
    requires |a| == |b| && j <= |a|
    requires forall k :: 0 <= k < |a| && a[k] ==> b[k]
    ensures CountFrom(a, j, true) <= CountFrom(b, j, true)
    ensures (exists k :: j <= k < |a| && !a[k] && b[k]) ==> CountFrom(a, j, true) < CountFrom(b, j, true)
    decreases |a| - j
  {
    if j < |a| {
      CountFromMonotone(a, b, j + 1);
    }
  }

  /** Growing a set of flags never lowers the count, and turning on one more
      flag raises it. */
  lemma TrueCountMonotone(a: seq<bool>, b: seq<bool>)
    requires |a| == |b|
    requires forall k :: 0 <= k < |a| && a[k] ==> b[k]
    ensures TrueCount(a) <= TrueCount(b)
    ensures (exists k :: 0 <= k < |a| && !a[k] && b[k]) ==> TrueCount(a) < TrueCount(b)
  {
    CountFromMonotone(a, b, 0);
  }

  lemma {:induction false} CountFromUniform(s: seq<bool>, j: nat, flag: bool)
    requires j <= |s|
    requires forall k :: 0 <= k < |s| ==> s[k] == flag
    ensures CountFrom(s, j, true) == if flag then |s| - j else 0
    decreases |s| - j
  {
    if j < |s| {
      CountFromUniform(s, j + 1, flag);
    }
  }

  lemma AllTrueCount(s: seq<bool>)
    requires forall k :: 0 <= k < |s| ==> s[k]
    ensures TrueCount(s) == |s|
  {
    CountFromUniform(s, 0, true);
  }

  lemma AllFalseCount(s: seq<bool>)
    requires forall k :: 0 <= k < |s| ==> !s[k]
    ensures TrueCount(s) == 0
  {
    CountFromUniform(s, 0, false);
  }

  /** Every neighbour link of an arena of `n` cells is NULL or names one of
      its cells. */
  ghost predicate LinksInRange(nb: seq<int>, n: nat)
  {
    forall k :: 0 <= k < |nb| ==> NoNeighbor <= nb[k] < n
  }

  /** The wall flags after `removeWall(side)` on cell `c`: the flag is
      cleared, and when a neighbour is linked on that side and still has its
      opposite wall, that wall is removed in turn (the source's recursive
      call).  Every call clears a flag that was set before it recurses, so
      the number of walls present bounds the recursion. */
  function RemoveWallSpec(w: seq<bool>, nb: seq<int>, n: nat, c: int, side: int): (r: seq<bool>)
    requires |w| == n * NumSides && |nb| == n * NumSides && LinksInRange(nb, n)
    requires 0 <= c < n && 0 <= side < NumSides
    ensures |r| == |w|
    ensures !r[Slot(c, side)]
    ensures forall k :: 0 <= k < |w| && r[k] ==> w[k]
    ensures nb[Slot(c, side)] != NoNeighbor ==>
              !r[Slot(nb[Slot(c, side)], OppositeSide(side))]
    decreases TrueCount(w) + (if w[Slot(c, side)] then 0 else 1)
  {
    var cleared := w[Slot(c, side) := false];
    var other := nb[Slot(c, side)];
    var opposite := OppositeSide(side);
    if other != NoNeighbor && cleared[Slot(other, opposite)] then
      TrueCountUpdate(w, Slot(c, side), false);
      RemoveWallSpec(cleared, nb, n, other, opposite)
    else
      cleared
  }

  /** When a neighbour is linked back (its link on the opposite side names
      `c`), removing the wall clears exactly this side of `c` and the
      opposite side of the neighbour. */
  lemma RemoveWallOnLinkedPair(w: seq<bool>, nb: seq<int>, n: nat, c: int, side: int)
    requires |w| == n * NumSides && |nb| == n * NumSides && LinksInRange(nb, n)
    requires 0 <= c < n && 0 <= side < NumSides
    requires nb[Slot(c, side)] != NoNeighbor
    requires nb[Slot(nb[Slot(c, side)], OppositeSide(side))] == c
    ensures RemoveWallSpec(w, nb, n, c, side) ==
            w[Slot(c, side) := false][Slot(nb[Slot(c, side)], OppositeSide(side)) := false]
  {
    var other := nb[Slot(c, side)];
    var opposite := OppositeSide(side);
    var cleared := w[Slot(c, side) := false];
    OppositeSideInvolution(side);
    if cleared[Slot(other, opposite)] {
      TrueCountUpdate(w, Slot(c, side), false);
      var inner := RemoveWallSpec(cleared, nb, n, other, opposite);
      assert !cleared[Slot(c, side)];
      assert inner == cleared[Slot(other, opposite) := false];
    } else {
      assert cleared[Slot(other, opposite) := false] == cleared;
    }
  }

  /** Without a neighbour on `side`, only that one flag is cleared. */
  lemma RemoveWallWithoutNeighbor(w: seq<bool>, nb: seq<int>, n: nat, c: int, side: int)
    requires |w| == n * NumSides && |nb| == n * NumSides && LinksInRange(nb, n)
    requires 0 <= c < n && 0 <= side < NumSides
    requires nb[Slot(c, side)] == NoNeighbor
    ensures RemoveWallSpec(w, nb, n, c, side) == w[Slot(c, side) := false]
  {
  }

  /** Removing the same wall twice is the same as removing it once. */
  lemma RemoveWallIdempotent(w: seq<bool>, nb: seq<int>, n: nat, c: int, side: int)
    requires |w| == n * NumSides && |nb| == n * NumSides && LinksInRange(nb, n)
    requires 0 <= c < n && 0 <= side < NumSides
    ensures RemoveWallSpec(RemoveWallSpec(w, nb, n, c, side), nb, n, c, side) ==
            RemoveWallSpec(w, nb, n, c, side)
  {
    var r := RemoveWallSpec(w, nb, n, c, side);
    assert r[Slot(c, side) := false] == r;
  }

  /** A cardinal side of cell `c` through which the carver may break: the
      wall is there, a neighbour is linked and that neighbour is unvisited. */
  predicate IsCandidate(w: seq<bool>, nb: seq<int>, v: seq<bool>, c: int, side: int)
    requires |w| == |v| * NumSides && |nb| == |v| * NumSides && LinksInRange(nb, |v|)
    requires 0 <= c < |v| && 0 <= side < NumSides
  {
    w[Slot(c, side)] && nb[Slot(c, side)] != NoNeighbor && !v[nb[Slot(c, side)]]
  }

  /** Number of candidate sides among the first `k` sides of cell `c`. */
  ghost function CandidateCount(w: seq<bool>, nb: seq<int>, v: seq<bool>, c: int, k: nat): (r: nat)
    requires |w| == |v| * NumSides && |nb| == |v| * NumSides && LinksInRange(nb, |v|)
    requires 0 <= c < |v| && k <= NumSides
    ensures r <= k
  {
    if k == 0 then 0
    else CandidateCount(w, nb, v, c, k - 1) + (if IsCandidate(w, nb, v, c, k - 1) then 1 else 0)
  }

  lemma {:induction false} CandidateCountPositive(w: seq<bool>, nb: seq<int>, v: seq<bool>, c: int, k: nat)
    requires |w| == |v| * NumSides && |nb| == |v| * NumSides && LinksInRange(nb, |v|)
    requires 0 <= c < |v| && k <= NumSides
    ensures CandidateCount(w, nb, v, c, k) > 0 <==> exists s :: 0 <= s < k && IsCandidate(w, nb, v, c, s)
  {
    if k > 0 {
      CandidateCountPositive(w, nb, v, c, k - 1);
    }
  }

  /** Some cardinal side of `c` is a candidate for removeRandomWall. */
  ghost predicate HasCandidate(w: seq<bool>, nb: seq<int>, v: seq<bool>, c: int)
    requires |w| == |v| * NumSides && |nb| == |v| * NumSides && LinksInRange(nb, |v|)
    requires 0 <= c < |v|
  {
    exists s :: 0 <= s < Top && IsCandidate(w, nb, v, c, s)
  }

  /** The cells of one maze, kept as an arena of flat arrays. */
  class CellArena {
    const count: nat
    const walls: array<bool>
    const neighbors: array<int>
    const textures: array<int>
    const visited: array<bool>

    ghost predicate Valid()
      reads this, neighbors
    {
      && walls.Length == count * NumSides
      && neighbors.Length == count * NumSides
      && textures.Length == count * NumSides
      && visited.Length == count
      && walls != visited
      && neighbors != textures
      && LinksInRange(neighbors[..], count)
    }

    /** Storage for `n` cells; each cell is then set up by `InitCell`. */
    constructor (n: nat)
      ensures Valid() && count == n
      ensures forall k :: 0 <= k < neighbors.Length ==> neighbors[k] == NoNeighbor
      ensures fresh(walls) && fresh(neighbors) && fresh(textures) && fresh(visited)
    {
      count := n;
      walls := new bool[n * NumSides];
      neighbors := new int[n * NumSides](_ => NoNeighbor);
      textures := new int[n * NumSides];
      visited := new bool[n];
    }

    /** Cell `c` as the Cell() constructor leaves it: every wall present, no
        neighbour, texture 0 on every side, not visited. */
    ghost predicate IsFreshCell(c: int)
      requires Valid() && 0 <= c < count
      reads this, walls, neighbors, textures, visited
    {
      && (forall s :: 0 <= s < NumSides ==> walls[Slot(c, s)])
      && (forall s :: 0 <= s < NumSides ==> neighbors[Slot(c, s)] == NoNeighbor)
      && (forall s :: 0 <= s < NumSides ==> textures[Slot(c, s)] == 0)
      && !visited[c]
    }

    /** Cell(): constructs cell `c` in its arena slots. */
    method InitCell(c: int)
      requires Valid() && 0 <= c < count
      modifies walls, neighbors, textures, visited
      ensures Valid() && IsFreshCell(c)
      ensures forall d, s :: 0 <= d < count && d != c && 0 <= s < NumSides ==> walls[Slot(d, s)] == old(walls[Slot(d, s)])
      ensures forall d, s :: 0 <= d < count && d != c && 0 <= s < NumSides ==> neighbors[Slot(d, s)] == old(neighbors[Slot(d, s)])
      ensures forall d, s :: 0 <= d < count && d != c && 0 <= s < NumSides ==> textures[Slot(d, s)] == old(textures[Slot(d, s)])
      ensures forall k :: 0 <= k < visited.Length && k != c ==> visited[k] == old(visited[k])
    {
      for i := 0 to NumSides
        invariant Valid()
        invariant forall s :: 0 <= s < i ==> walls[Slot(c, s)]
        invariant forall s :: 0 <= s < i ==> neighbors[Slot(c, s)] == NoNeighbor
        invariant forall s :: 0 <= s < i ==> textures[Slot(c, s)] == 0
        invariant forall d, s :: 0 <= d < count && d != c && 0 <= s < NumSides ==> walls[Slot(d, s)] == old(walls[Slot(d, s)])
        invariant forall d, s :: 0 <= d < count && d != c && 0 <= s < NumSides ==> neighbors[Slot(d, s)] == old(neighbors[Slot(d, s)])
        invariant forall d, s :: 0 <= d < count && d != c && 0 <= s < NumSides ==> textures[Slot(d, s)] == old(textures[Slot(d, s)])
        invariant visited[..] == old(visited[..])
      {
        walls[Slot(c, i)] := true;
        neighbors[Slot(c, i)] := NoNeighbor;
        textures[Slot(c, i)] := 0;
      }
      visited[c] := false;
    }

    /** setVisited: returns the value it stores. */
    method SetVisited(c: int, value: bool) returns (r: bool)
      requires Valid() && 0 <= c < count
      modifies visited
      ensures r == value
      ensures visited[..] == old(visited[..])[c := value]
    {
      visited[c] := value;
      r := value;
    }

    /** setTexture: returns the value it stores. */
    method SetTexture(c: int, side: int, textureNo: int) returns (r: int)
      requires Valid() && 0 <= c < count && 0 <= side < NumSides
      modifies textures
      ensures r == textureNo
      ensures textures[..] == old(textures[..])[Slot(c, side) := textureNo]
    {
      textures[Slot(c, side)] := textureNo;
      r := textureNo;
    }

    /** setNeighbor: records a one-way link and returns it; reciprocating it
        is the caller's business. */
    method SetNeighbor(c: int, side: int, other: int) returns (r: int)
      requires Valid() && 0 <= c < count && 0 <= side < NumSides
      requires NoNeighbor <= other < count
      modifies neighbors
      ensures Valid()
      ensures r == other
      ensures neighbors[..] == old(neighbors[..])[Slot(c, side) := other]
    {
      neighbors[Slot(c, side)] := other;
      r := other;
    }

    function HasBeenVisited(c: int): (visitedNow: bool)
      requires Valid() && 0 <= c < count
      reads this, neighbors, visited
    {
      visited[c]
    }

    function HasWallAt(c: int, side: int): (present: bool)
      requires Valid() && 0 <= c < count && 0 <= side < NumSides
      reads this, neighbors, walls
    {
      walls[Slot(c, side)]
    }

    function HasNeighborAt(c: int, side: int): (linked: bool)
      requires Valid() && 0 <= c < count && 0 <= side < NumSides
      reads this, neighbors
    {
      neighbors[Slot(c, side)] != NoNeighbor
    }

    /** removeWall: clears the wall on `side` of cell `c` and, through the
        neighbour link, the matching wall on the other side. */
    method RemoveWall(c: int, side: int)
      requires Valid() && 0 <= c < count && 0 <= side < NumSides
      modifies walls
      ensures walls[..] == RemoveWallSpec(old(walls[..]), neighbors[..], count, c, side)
      decreases TrueCount(walls[..]) + (if walls[Slot(c, side)] then 0 else 1)
    {
      ghost var w := walls[..];
      walls[Slot(c, side)] := false;
      assert walls[..] == w[Slot(c, side) := false];
      var opposite := OppositeSide(side);
      var other := neighbors[Slot(c, side)];
      if other != NoNeighbor && HasWallAt(other, opposite) {
        TrueCountUpdate(w, Slot(c, side), false);
        RemoveWall(other, opposite);
      }
    }

    /** removeRandomWall: counts the cardinal sides the carver may break
        through; when there is one, removes the wall on one of them and
        returns that side, otherwise returns -1.  The source draws `rand() % 4`
        until it hits a candidate; which candidate it lands on is left open
        here. */
    method RemoveRandomWall(c: int) returns (side: int)
      requires Valid() && 0 <= c < count
      modifies walls
      ensures side == -1 <==> !HasCandidate(old(walls[..]), neighbors[..], visited[..], c)
      ensures side != -1 ==>
                && 0 <= side < 4
                && IsCandidate(old(walls[..]), neighbors[..], visited[..], c, side)
                && walls[..] == RemoveWallSpec(old(walls[..]), neighbors[..], count, c, side)
      ensures side == -1 ==> walls[..] == old(walls[..])
    {
      var availablePaths := 4;
      for i := 0 to 4
        invariant availablePaths == 4 - i + CandidateCount(walls[..], neighbors[..], visited[..], c, i)
      {
        if !walls[Slot(c, i)] || neighbors[Slot(c, i)] == NoNeighbor
           || visited[neighbors[Slot(c, i)]] {
          availablePaths := availablePaths - 1;
        }
      }
      CandidateCountPositive(walls[..], neighbors[..], visited[..], c, 4);
      if availablePaths > 0 {
        side :| 0 <= side < 4 && IsCandidate(walls[..], neighbors[..], visited[..], c, side);
        ghost var before := walls[..];
        RemoveWall(c, side);
        assert IsCandidate(before, neighbors[..], visited[..], c, side);
      } else {
        side := -1;
      }
    }
  }
}
