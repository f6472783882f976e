/** The snake: its segments head first, its target length, the committed
    direction, the direction buffered by the last key poll, and the last cell
    popped off the tail. */
module Snakes {
  import opened Wrappers
  import opened Grid
  import opened GameObjects

  function Min(a: int, b: int): int {
    if a <= b then a else b
  }

  /** The segments after one move: the new head in front, then as much of
      the old body as the target `length` leaves. */
  function Moved(body: seq<Cell>, d: Direction, length: int): (r: seq<Cell>)
    requires |body| >= 1 && length >= 1
    ensures |r| == Min(|body| + 1, length)
    ensures r[0] == NextCell(body[0], d)
    ensures r[1..] == body[..|r| - 1]
  {
    ([NextCell(body[0], d)] + body)[..Min(|body| + 1, length)]
  }

  /** A move keeps every segment a grid cell on the screen. */
  lemma MovedOnGrid(body: seq<Cell>, d: Direction, length: int)
    requires |body| >= 1 && length >= 1
    requires forall i :: 0 <= i < |body| ==> OnGrid(body[i])
    ensures var r := Moved(body, d, length);
      forall i :: 0 <= i < |r| ==> OnGrid(r[i])
  {
  }

  /** The new target length after a change of `delta`: never below one. */
  function ClampedLength(length: int, delta: int): (r: int)
    ensures r >= 1 && r >= length + delta
    ensures r == length + delta || r == 1
  {
    if 1 >= length + delta then 1 else length + delta
  }

  /** The direction the snake moves in once the buffer is committed. */
  function Committed(direction: Direction, next: Option<Direction>): (d: Direction)
    ensures next.Some? ==> d == next.value
    ensures next.None? ==> d == direction
  {
    next.GetOr(direction)
  }

  class Snake {
    var positions: seq<Cell>
    var length: int
    var direction: Direction
    var nextDirection: Option<Direction>
    var last: Option<Cell>

    /** What every method keeps: a non-empty body of grid cells, a length of
        at least one, and a buffered direction that never reverses the
        committed one. */
    ghost predicate Valid()
      reads this
    {
      |positions| >= 1 && length >= 1 &&
      (forall i :: 0 <= i < |positions| ==> OnGrid(positions[i])) &&
      (nextDirection.Some? ==> nextDirection.value != direction.Opposite()) &&
      (last.Some? ==> OnGrid(last.value))
    }

    /** One segment in the centre of the screen, heading right. */
    constructor ()
      ensures Valid()
      ensures positions == [(ScreenWidth / 2, ScreenHeight / 2)] && length == 1
      ensures direction == Right && nextDirection == None && last == None
    {
      length := 1;
      positions := [(ScreenWidth / 2, ScreenHeight / 2)];
      direction := Right;
      nextDirection := None;
      last := None;
    }

    /** Commits the buffered direction, if any, and empties the buffer. */
    method UpdateDirection()
      requires Valid()
      modifies this`direction, this`nextDirection
      ensures Valid()
      ensures old(nextDirection).Some? ==> direction == old(nextDirection).value
      ensures old(nextDirection).None? ==> direction == old(direction)
      ensures nextDirection == None
      ensures direction == Committed(old(direction), old(nextDirection))
      ensures direction != old(direction).Opposite()
    {
      if nextDirection.Some? {
        direction := nextDirection.value;
        nextDirection := None;
      }
    }

    /** Puts the next cell in front of the head, then pops tail cells while
        the body is longer than `length`, remembering the last one popped. */
    method Move()
      requires Valid()
      modifies this`positions, this`last
      ensures Valid()
      ensures positions == Moved(old(positions), direction, length)
      ensures old(|positions|) >= length ==> last == Some(old(positions)[length - 1])
      ensures old(|positions|) < length ==> last == old(last)
    {
      ghost var full := [NextCell(positions[0], direction)] + positions;
      MovedOnGrid(positions, direction, length);
      positions := [NextCell(positions[0], direction)] + positions;
      while |positions| > length
        invariant Min(|full|, length) <= |positions| <= |full|
        invariant positions == full[..|positions|]
        invariant |positions| < |full| ==> last == Some(full[|positions|])
        invariant |positions| == |full| ==> last == old(last)
        decreases |positions|
      {
        last := Some(positions[|positions| - 1]);
        positions := positions[..|positions| - 1];
      }
    }

    /** Changes the target length by `delta`, clamped to at least one. The
        body itself only follows at the next move. */
    method ChangeLength(delta: int)
      requires Valid()
      modifies this`length
      ensures Valid()
      ensures length == ClampedLength(old(length), delta)
    {
      length := ClampedLength(length, delta);
    }

    /** Back to one segment at a random cell, heading right, with an empty
        buffer; `last` is left as it was. */
    method Reset()
      requires Valid()
      modifies this`length, this`positions, this`direction, this`nextDirection
      ensures Valid()
      ensures length == 1 && |positions| == 1 && OnGrid(positions[0])
      ensures direction == Right && nextDirection == None
    {
      length := 1;
      var c := RandomCell();
      positions := [c];
      direction := Right;
      nextDirection := None;
    }

    /** The head cell. */
    function GetHeadPosition(): (h: Cell)
      reads this
      requires Valid()
      ensures h == positions[0] && OnGrid(h)
    {
      positions[0]
    }

    /** With an object: the head is on the object's cell. Without one
        (`null`): the head lies on some other segment of the body. */
    function GetCollision(obj: GameObject?): (hit: bool)
      reads this, obj
      requires Valid()
      ensures obj != null ==> (hit <==> positions[0] == obj.position)
      ensures obj == null ==>
        (hit <==> exists i :: 1 <= i < |positions| && positions[i] == positions[0])
      ensures obj == null && |positions| == 1 ==> !hit
    {
      if obj != null then GetHeadPosition() == obj.position
      else GetHeadPosition() in positions[1..]
    }
  }
}
