/** Character kinematics of HeroQuest3D/Character.cpp: a character stands at
    (x, y) in a quest's maze, moves and strafes by committing each axis only
    when the quest's isLegalPosition accepts it, jumps and falls under
    gravity, and turns by a fixed rate.  Coordinates are real numbers; cos
    and sin of the heading are given to the character as functions. */
module Characters {
  import opened Cells
  import opened Grid
  import opened Quests

  // HeroQuest3D/Character.h: the character types.
  const PlayerBarbarian := 0
  const PlayerDwarf := 1
  const PlayerElf := 2
  const PlayerWizard := 3
  const Goblin := 4
  const Orc := 5

  // HeroQuest3D/Character.h: the resting height above the floor, and the
  // velocity lost per fall.
  const DefaultZOffset: real := 0.001
  const Gravity: real := 0.004

  // The rates and radius initialize gives every character; no operation
  // changes them.
  const MovementRate: real := 0.04
  const JumpRate: real := 0.05
  const RotationRate: real := 2.0
  const CollisionRadius: real := 0.25

  // HeroQuest3D/Cell.h: the side of a cell.
  const CellSize: real := 1.0

  /** isPlayer: the four player types, which come first in the enum. */
  function IsPlayerType(kind: int): (player: bool)
    ensures player <==> PlayerBarbarian <= kind < Goblin
  {
    kind == PlayerBarbarian || kind == PlayerWizard || kind == PlayerElf || kind == PlayerDwarf
  }

  /** cos and sin of any heading lie in [-1, 1]. */
  ghost predicate UnitBounded(f: real -> real)
  {
    forall a :: -1.0 <= f(a) <= 1.0
  }

  lemma UnitBoundedAt(f: real -> real, a: real)
    requires UnitBounded(f)
    ensures -1.0 <= f(a) <= 1.0
  {
  }

  /** The distance one step covers along an axis at whose angle to the
      heading the cosine is `c`: `c * movementRate_`. */
  function Stride(c: real): (d: real)
    ensures -1.0 <= c <= 1.0 ==> -MovementRate <= d <= MovementRate
  {
    c * MovementRate
  }

  /** `p - c * movementRate_`: where a step against an axis whose cosine
      to the heading is c ends; at most MovementRate from p. */
  function StepBack(p: real, c: real): (q: real)
    ensures -1.0 <= c <= 1.0 ==> p - MovementRate <= q <= p + MovementRate
  {
    p - Stride(c)
  }

  /** `p - c * movementRate_ * -1.0`: the same step with its sign flipped;
      at most MovementRate from p. */
  function StepBackNegated(p: real, c: real): (q: real)
    ensures -1.0 <= c <= 1.0 ==> p - MovementRate <= q <= p + MovementRate
  {
    p - Stride(c) * -1.0
  }

  // ---------------------------------------------------------------------
  // The guarded two-axis commit

  /** A character placed at the centre of any cell stands at a legal
      position, whatever the walls. */
  lemma CentreIsLegal(w: seq<bool>, cx: int, cy: int)
    requires |w| == CellCount * NumSides && InGrid(cx, cy)
    ensures LegalPosition(w, cx as real + CellSize / 2.0, cy as real + CellSize / 2.0, CollisionRadius)
  {
    CellCentreIsLegal(w, cx, cy, CollisionRadius);
    LegalPositionCorrects(w, cx as real + 0.5, cy as real + 0.5, CollisionRadius);
  }

  /** A position on the floor of the maze. */
  datatype Point = Point(x: real, y: real)

  /** Where a move from (x, y) towards (newX, newY) ends: x takes newX when
      isLegalPosition accepts (newX, y); then y takes newY when it accepts
      the already updated x with newY. */
  function Commit(w: seq<bool>, x: real, y: real, newX: real, newY: real): (p: Point)
    requires |w| == CellCount * NumSides
    ensures p.x == newX || p.x == x
    ensures p.y == newY || p.y == y
  {
    var x' := if Legality(w, newX, y, CollisionRadius) == Legal then newX else x;
    Point(x', if Legality(w, x', newY, CollisionRadius) == Legal then newY else y)
  }

  /** From a legal position in a maze with its outer walls standing, a move
      of at most one step along each axis ends at a legal position, and
      neither of its two probes reaches the past-the-end read of
      isLegalPosition. */
  lemma CommitKeepsLegal(w: seq<bool>, x: real, y: real, newX: real, newY: real)
    requires |w| == CellCount * NumSides && BoundaryIntact(w)
    requires LegalPosition(w, x, y, CollisionRadius)
    requires -MovementRate <= newX - x <= MovementRate && -MovementRate <= newY - y <= MovementRate
    ensures Legality(w, newX, y, CollisionRadius) != ReadsPastEnd
    ensures Legality(w, Commit(w, x, y, newX, newY).x, newY, CollisionRadius) != ReadsPastEnd
    ensures LegalPosition(w, Commit(w, x, y, newX, newY).x, Commit(w, x, y, newX, newY).y, CollisionRadius)
  {
    var x' := Commit(w, x, y, newX, newY).x;
    LegalPositionCorrects(w, x, y, CollisionRadius);
    StepFromLegalIsDefined(w, x, y, CollisionRadius, newX - x, 0.0);
    assert x + (newX - x) == newX;
    LegalPositionCorrects(w, x', y, CollisionRadius);
    StepFromLegalIsDefined(w, x', y, CollisionRadius, 0.0, newY - y);
    assert y + (newY - y) == newY;
    LegalPositionCorrects(w, x', Commit(w, x, y, newX, newY).y, CollisionRadius);
  }

  /** The two probes act makes before stepping, (newX, y) and (x, newY),
      never reach the past-the-end read from a legal position either. */
  lemma ProbesDefined(w: seq<bool>, x: real, y: real, newX: real, newY: real)
    requires |w| == CellCount * NumSides && BoundaryIntact(w)
    requires LegalPosition(w, x, y, CollisionRadius)
    requires -MovementRate <= newX - x <= MovementRate && -MovementRate <= newY - y <= MovementRate
    ensures Legality(w, newX, y, CollisionRadius) != ReadsPastEnd
    ensures Legality(w, x, newY, CollisionRadius) != ReadsPastEnd
  {
    LegalPositionCorrects(w, x, y, CollisionRadius);
    StepFromLegalIsDefined(w, x, y, CollisionRadius, newX - x, newY - y);
    assert x + (newX - x) == newX && y + (newY - y) == newY;
  }

  /** A move whose first probe and whose diagonal target are both accepted
      reaches its target; a move whose two probes are both refused stays. */
  lemma CommitOutcome(w: seq<bool>, x: real, y: real, newX: real, newY: real)
    requires |w| == CellCount * NumSides
    ensures Legality(w, newX, y, CollisionRadius) == Legal && Legality(w, newX, newY, CollisionRadius) == Legal
            ==> Commit(w, x, y, newX, newY) == Point(newX, newY)
    ensures Legality(w, newX, y, CollisionRadius) != Legal && Legality(w, x, newY, CollisionRadius) != Legal
            ==> Commit(w, x, y, newX, newY) == Point(x, y)
  {
  }

  // ---------------------------------------------------------------------
  // Vertical motion

  /** The height of a character's feet and its vertical velocity
      (`vertAcceleration_` in the source). */
  datatype Vertical = Vertical(z: real, velocity: real)

  /** The state a character rests in on the floor. */
  const Resting := Vertical(DefaultZOffset, 0.0)

  /** jump: only from the ground, the velocity gains JumpRate and is added
      to the height. */
  function JumpStep(s: Vertical): (s': Vertical)
  {
    if s.z <= DefaultZOffset then Vertical(s.z + (s.velocity + JumpRate), s.velocity + JumpRate) else s
  }

  /** fall: in the air, Gravity is taken off the velocity and the velocity
      added to the height; on the ground, the state is reset to rest. */
  function FallStep(s: Vertical): (s': Vertical)
  {
    if s.z > DefaultZOffset then Vertical(s.z + (s.velocity - Gravity), s.velocity - Gravity) else Resting
  }

  /** The vertical state after `n` calls of fall. */
  function Falls(s: Vertical, n: nat): (s': Vertical)
    decreases n
  {
    if n == 0 then s else FallStep(Falls(s, n - 1))
  }

  /** Falling on the ground rests the character, and falling again changes
      nothing. */
  lemma GroundedFallIdempotent(s: Vertical)
    requires s.z <= DefaultZOffset
    ensures FallStep(s) == Resting
    ensures FallStep(FallStep(s)) == FallStep(s)
  {
  }

  /** A product the solver treats as one term. */
  function Times(a: real, b: real): (product: real)
  {
    a * b
  }

  /** The height and velocity of a character `n` falls after a jump from
      rest, in closed form. */
  function ArcHeight(n: real): (z: real)
  {
    DefaultZOffset + Times(n + 1.0, JumpRate - n * Gravity / 2.0)
  }

  function ArcVelocity(n: real): (velocity: real)
  {
    JumpRate - n * Gravity
  }

  lemma PositiveProduct(a: real, b: real)
    requires a > 0.0 && b > 0.0
    ensures Times(a, b) > 0.0
  {
  }

  /** Before the 25th fall the closed-form height is above the floor
      offset. */
  lemma ArcAirborne(n: real)
    requires 0.0 <= n < 25.0
    ensures ArcHeight(n) > DefaultZOffset
  {
    assert JumpRate - n * Gravity / 2.0 == 0.05 - 0.002 * n;
    PositiveProduct(n + 1.0, JumpRate - n * Gravity / 2.0);
  }

  /** One airborne fall advances the closed form by one. */
  lemma ArcStep(n: real)
    ensures ArcHeight(n) + (ArcVelocity(n) - Gravity) == ArcHeight(n + 1.0)
    ensures ArcVelocity(n) - Gravity == ArcVelocity(n + 1.0)
  {
    assert Times(n + 1.0, JumpRate - n * Gravity / 2.0) == 0.05 + 0.048 * n - 0.002 * (n * n);
    assert Times(n + 1.0 + 1.0, JumpRate - (n + 1.0) * Gravity / 2.0) == 0.096 + 0.044 * n - 0.002 * (n * n);
  }

  /** After a jump from rest, k falls (k at most 25) leave the character at
      ArcHeight(k) with velocity ArcVelocity(k). */
  lemma {:induction false} FallArc(k: nat)
    requires k <= 25
    ensures Falls(JumpStep(Resting), k) == Vertical(ArcHeight(k as real), ArcVelocity(k as real))
  {
    if k > 0 {
      FallArc(k - 1);
      var n := (k - 1) as real;
      ArcAirborne(n);
      ArcStep(n);
      assert n + 1.0 == k as real;
    }
  }

  /** A jump from rest leaves the ground, stays in the air through the next
      24 falls, is back at DefaultZOffset after the 25th, and the 26th fall
      brings it to rest. */
  lemma JumpLands()
    ensures JumpStep(Resting).z > DefaultZOffset
    ensures forall k: nat :: k < 25 ==> Falls(JumpStep(Resting), k).z > DefaultZOffset
    ensures Falls(JumpStep(Resting), 25).z == DefaultZOffset
    ensures Falls(JumpStep(Resting), 26) == Resting
  {
    forall k: nat | k < 25
      ensures Falls(JumpStep(Resting), k).z > DefaultZOffset
    {
      FallArc(k);
      ArcAirborne(k as real);
    }
    FallArc(25);
  }

  // ---------------------------------------------------------------------
  // Characters

  class Character {
    const kind: int
    const quest: Quest
    /** cos and sin of a heading given in degrees; the source computes them
        from `rotation_ * PI / 180` with the C library. */
    const cosDeg: real -> real
    const sinDeg: real -> real
    /** The walls of the quest's maze, which no operation of a character
        changes. */
    ghost const walls: seq<bool>
    var x: real
    var y: real
    var z: real
    var vertAcceleration: real
    var rotation: real

    /** The character stands at a legal position of a maze whose outer
        walls are intact. */
    ghost predicate Valid()
      reads this`x, this`y, quest, quest.cells, quest.cells.neighbors, quest.cells.walls
    {
      && quest.Linked()
      && quest.cells.walls[..] == walls
      && BoundaryIntact(walls)
      && UnitBounded(cosDeg) && UnitBounded(sinDeg)
      && LegalPosition(walls, x, y, CollisionRadius)
    }

    /** Character(type, quest) and initialize: at rest on the floor; a
        player at the centre of the start cell facing north, any other
        character at the centre of the cell drawn by `xDraw` and `yDraw`
        (the `rand()` results) with the heading drawn by `rotationDraw`. */
    constructor (kind: int, quest: Quest, cosDeg: real -> real, sinDeg: real -> real,
                 xDraw: nat, yDraw: nat, rotationDraw: nat)
      requires quest.Playable()
      requires UnitBounded(cosDeg) && UnitBounded(sinDeg)
      ensures this.kind == kind && this.quest == quest
      ensures this.cosDeg == cosDeg && this.sinDeg == sinDeg && walls == quest.cells.walls[..]
      ensures z == DefaultZOffset && vertAcceleration == 0.0
      ensures IsPlayerType(kind) ==>
                x == quest.startX as real + CellSize / 2.0 && y == CellSize / 2.0 && rotation == 90.0
      ensures !IsPlayerType(kind) ==>
                && x == (xDraw % DefaultMazeWidth) as real + CellSize / 2.0
                && y == (yDraw % DefaultMazeHeight) as real + CellSize / 2.0
                && rotation == (rotationDraw % 360) as real
      ensures Valid()
    {
      this.kind := kind;
      this.quest := quest;
      this.cosDeg := cosDeg;
      this.sinDeg := sinDeg;
      walls := quest.cells.walls[..];
      z := DefaultZOffset;
      vertAcceleration := 0.0;
      // The player starts at the centre of the start cell, facing north;
      // any other character at the centre of a drawn cell.
      var cx := if IsPlayerType(kind) then quest.startX else xDraw % DefaultMazeWidth;
      var cy := if IsPlayerType(kind) then 0 else yDraw % DefaultMazeHeight;
      CentreIsLegal(quest.cells.walls[..], cx, cy);
      x := cx as real + CellSize / 2.0;
      y := cy as real + CellSize / 2.0;
      rotation := if IsPlayerType(kind) then 90.0 else (rotationDraw % 360) as real;
    }

    /** getNextX: x after one step forward, at most MovementRate away. */
    function NextX(): (nextX: real)
      requires UnitBounded(cosDeg)
      reads this`x, this`rotation
      ensures x - MovementRate <= nextX <= x + MovementRate
    {
      UnitBoundedAt(cosDeg, rotation);
      x + Stride(cosDeg(rotation))
    }

    /** getNextY: y after one step forward, at most MovementRate away. */
    function NextY(): (nextY: real)
      requires UnitBounded(sinDeg)
      reads this`y, this`rotation
      ensures y - MovementRate <= nextY <= y + MovementRate
    {
      UnitBoundedAt(sinDeg, rotation);
      y + Stride(sinDeg(rotation))
    }

    /** The guarded two-axis commit each move performs. */
    method CommitMove(newX: real, newY: real)
      requires Valid()
      requires -MovementRate <= newX - x <= MovementRate && -MovementRate <= newY - y <= MovementRate
      modifies this`x, this`y
      ensures Valid()
      ensures Point(x, y) == Commit(walls, old(x), old(y), newX, newY)
      ensures Legality(walls, newX, old(y), CollisionRadius) != ReadsPastEnd
      ensures Legality(walls, x, newY, CollisionRadius) != ReadsPastEnd
    {
      CommitKeepsLegal(walls, x, y, newX, newY);
      if quest.IsLegalPosition(newX, y, CollisionRadius) == Legal {
        x := newX;
      }
      if quest.IsLegalPosition(x, newY, CollisionRadius) == Legal {
        y := newY;
      }
    }

    /** moveForward: one step along the heading. */
    method MoveForward()
      requires Valid()
      modifies this`x, this`y
      ensures Valid()
      ensures Point(x, y) == Commit(walls, old(x), old(y), old(NextX()), old(NextY()))
    {
      var newX := NextX();
      var newY := NextY();
      CommitMove(newX, newY);
    }

    /** moveBackward: one step against the heading. */
    method MoveBackward()
      requires Valid()
      modifies this`x, this`y
      ensures Valid()
      ensures Point(x, y) == Commit(walls, old(x), old(y),
                               old(StepBack(x, cosDeg(rotation))),
                               old(StepBack(y, sinDeg(rotation))))
    {
      UnitBoundedAt(cosDeg, rotation);
      UnitBoundedAt(sinDeg, rotation);
      CommitMove(StepBack(x, cosDeg(rotation)), StepBack(y, sinDeg(rotation)));
    }

    /** strafeLeft: one step at right angles to the heading, to the left. */
    method StrafeLeft()
      requires Valid()
      modifies this`x, this`y
      ensures Valid()
      ensures Point(x, y) == Commit(walls, old(x), old(y),
                               old(StepBack(x, sinDeg(rotation))),
                               old(StepBackNegated(y, cosDeg(rotation))))
    {
      UnitBoundedAt(cosDeg, rotation);
      UnitBoundedAt(sinDeg, rotation);
      CommitMove(StepBack(x, sinDeg(rotation)), StepBackNegated(y, cosDeg(rotation)));
    }

    /** strafeRight: one step at right angles to the heading, to the right. */
    method StrafeRight()
      requires Valid()
      modifies this`x, this`y
      ensures Valid()
      ensures Point(x, y) == Commit(walls, old(x), old(y),
                               old(StepBackNegated(x, sinDeg(rotation))),
                               old(StepBack(y, cosDeg(rotation))))
    {
      UnitBoundedAt(cosDeg, rotation);
      UnitBoundedAt(sinDeg, rotation);
      CommitMove(StepBackNegated(x, sinDeg(rotation)), StepBack(y, cosDeg(rotation)));
    }

    /** jump: takes off only from the ground. */
    method Jump()
      requires Valid()
      modifies this`z, this`vertAcceleration
      ensures Valid()
      ensures Vertical(z, vertAcceleration) == JumpStep(old(Vertical(z, vertAcceleration)))
    {
      if z <= DefaultZOffset {
        vertAcceleration := vertAcceleration + JumpRate;
        z := z + vertAcceleration;
      }
    }

    /** fall: gravity in the air, rest on the ground. */
    method Fall()
      requires Valid()
      modifies this`z, this`vertAcceleration
      ensures Valid()
      ensures Vertical(z, vertAcceleration) == FallStep(old(Vertical(z, vertAcceleration)))
    {
      if z > DefaultZOffset {
        vertAcceleration := vertAcceleration - Gravity;
        z := z + vertAcceleration;
      } else {
        z := DefaultZOffset;
        vertAcceleration := 0.0;
      }
    }

    /** isOnGround: raises a character below the floor offset to it, and
        answers whether the character was at or below it. */
    method IsOnGround() returns (onGround: bool)
      requires Valid()
      modifies this`z
      ensures Valid()
      ensures onGround <==> old(z) <= DefaultZOffset
      ensures z >= DefaultZOffset
      ensures z == if old(z) <= DefaultZOffset then DefaultZOffset else old(z)
    {
      if z <= DefaultZOffset {
        z := DefaultZOffset;
      }
      onGround := z == DefaultZOffset;
    }

    /** rotateLeft: turns by RotationRate degrees; undone by rotateRight. */
    method RotateLeft()
      requires Valid()
      modifies this`rotation
      ensures Valid()
      ensures rotation == old(rotation) + RotationRate
    {
      rotation := rotation + RotationRate;
    }

    /** rotateRight: turns back by RotationRate degrees. */
    method RotateRight()
      requires Valid()
      modifies this`rotation
      ensures Valid()
      ensures rotation == old(rotation) - RotationRate
    {
      rotation := rotation - RotationRate;
    }

    /** canSee: no character sees another yet. */
    function CanSee(other: Character): (seen: bool)
      ensures !seen
    {
      false
    }

    /** Both probes of a forward step are accepted. */
    ghost predicate ForwardClear()
      requires Valid()
      reads this`x, this`y, this`rotation, quest, quest.cells, quest.cells.neighbors, quest.cells.walls
    {
      && Legality(walls, NextX(), y, CollisionRadius) == Legal
      && Legality(walls, x, NextY(), CollisionRadius) == Legal
    }

    /** act: players are driven by the keyboard and do nothing here; any
        other character steps forward when both probes of the step are
        accepted, and otherwise turns right. */
    method Act(player: Character)
      requires Valid()
      modifies this`x, this`y, this`rotation
      ensures Valid()
      ensures IsPlayerType(kind) ==> x == old(x) && y == old(y) && rotation == old(rotation)
      ensures !IsPlayerType(kind) && old(ForwardClear()) ==>
                && Point(x, y) == Commit(walls, old(x), old(y), old(NextX()), old(NextY()))
                && rotation == old(rotation)
      ensures !IsPlayerType(kind) && !old(ForwardClear()) ==>
                x == old(x) && y == old(y) && rotation == old(rotation) - RotationRate
    {
      if IsPlayerType(kind) {
        return;
      } else if CanSee(player) {
        // moveToward(player): never reached, as canSee answers false.
        assert false;
      } else if quest.IsLegalPosition(NextX(), y, CollisionRadius) == Legal
                && quest.IsLegalPosition(x, NextY(), CollisionRadius) == Legal {
        MoveForward();
      } else {
        RotateRight();
      }
    }
  }
}
