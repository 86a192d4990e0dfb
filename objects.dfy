/**
 * The two game objects of the_snake.py: the snake, whose fields every method
 * updates in place, and the apple, whose position is overwritten by each
 * random placement. Random choices arrive as parameters.
 */
module GameObjects {
  import opened Options
  import opened Geometry
  import opened Keys

  /** Each cell of the body is one step away from the cell behind it. */
  ghost predicate Chained(body: seq<Cell>)
  {
    forall i :: 0 <= i < |body| - 1 ==> Adjacent(body[i + 1], body[i])
  }

  /** The head is one step in `dir` from the second cell (the neck). */
  ghost predicate NeckBehind(body: seq<Cell>, dir: Direction)
  {
    |body| >= 2 ==> body[0] == NextHead(body[1], dir)
  }

  class Snake {
    /** Body cells, head first (`positions`). */
    var positions: seq<Cell>
    var direction: Direction
    /** Buffered key request (`next_direction`), committed by UpdateDirection. */
    var nextDirection: Option<Direction>
    /** The tail cell dropped by the last Move (`last`). */
    var last: Option<Cell>
    /** The head computed by the last Move (`new_head`). */
    var newHead: Option<Cell>

    /** The object invariant kept by every method. */
    ghost predicate Valid()
      reads this
    {
      && |positions| >= 1
      && (forall i :: 0 <= i < |positions| ==> OnBoard(positions[i]))
      && (last.Some? ==> OnBoard(last.value))
      && NotReverse(direction, nextDirection)
    }

    /** Between two frames the body is also a connected chain led by its direction. */
    ghost predicate Settled()
      reads this
    {
      Valid() && Chained(positions) && NeckBehind(positions, direction)
    }

    constructor (initial: Direction)
      ensures Settled()
      ensures positions == [Center] && direction == initial
      ensures nextDirection == None && last == None && newHead == None
    {
      new;
      Reset(initial);
      newHead := None;
    }

    /** `get_head_position`: the first cell of the body. */
    function Head(): (h: Cell)
      reads this
      requires Valid()
      ensures h == positions[0] && OnBoard(h)
    {
      positions[0]
    }

    /** Commits the buffered direction, if any, and clears the buffer. */
    method UpdateDirection()
      requires Valid()
      modifies this
      ensures Valid()
      ensures direction == (if old(nextDirection).Some? then old(nextDirection).value else old(direction))
      ensures nextDirection == None
      ensures direction != Opposite(old(direction))
      ensures positions == old(positions) && last == old(last) && newHead == old(newHead)
    {
      if nextDirection.Some? {
        direction := nextDirection.value;
        nextDirection := None;
      }
    }

    /**
     * Puts the wrapped next head in front of the body and drops the tail
     * into `last`: the length is unchanged.
     */
    method Move()
      requires Valid()
      modifies this
      ensures Valid()
      ensures var n := |old(positions)|;
        && newHead == Some(NextHead(old(positions)[0], direction))
        && positions == [newHead.value] + old(positions)[..n - 1]
        && last == Some(old(positions)[n - 1])
      ensures |positions| == |old(positions)|
      ensures direction == old(direction) && nextDirection == old(nextDirection)
    {
      var head := Head();
      NextHeadOnBoard(head, direction);
      newHead := Some(NextHead(head, direction));
      positions := [newHead.value] + positions;
      last := Some(positions[|positions| - 1]);
      positions := positions[..|positions| - 1];
    }

    /** Re-appends the tail that the last Move dropped: one cell longer. */
    method GrowUp()
      requires Valid() && last.Some?
      modifies this
      ensures Valid()
      ensures positions == old(positions) + [old(last).value]
      ensures direction == old(direction) && nextDirection == old(nextDirection)
      ensures last == old(last) && newHead == old(newHead)
    {
      positions := positions + [last.value];
    }

    /** Back to one cell at the centre, moving in `randomDirection`. */
    method Reset(randomDirection: Direction)
      modifies this
      ensures Settled()
      ensures positions == [Center] && direction == randomDirection
      ensures nextDirection == None && last == None && newHead == old(newHead)
    {
      positions := [Center];
      direction := randomDirection;
      nextDirection := None;
      last := None;
    }
  }

  class Apple {
    var position: Cell

    ghost predicate Valid()
      reads this
    {
      OnBoard(position)
    }

    constructor (col: int, row: int)
      requires 0 <= col < GridWidth && 0 <= row < GridHeight
      ensures Valid() && position == GridCell(col, row)
    {
      position := Center;
      new;
      RandomizePosition(col, row);
    }

    /** Moves the apple to grid column `col`, row `row`; the snake is not consulted. */
    method RandomizePosition(col: int, row: int)
      requires 0 <= col < GridWidth && 0 <= row < GridHeight
      modifies this
      ensures Valid() && position == GridCell(col, row)
    {
      position := GridCell(col, row);
    }
  }
}
