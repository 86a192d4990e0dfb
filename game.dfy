/**
 * One iteration of the main loop of the_snake.py: the frame's key presses
 * (`handle_keys`) and the game step that follows them (commit the buffered
 * direction, move, eat and re-place the apple, reset on biting the body).
 */
module Game {
  import opened Options
  import opened Geometry
  import opened Keys
  import opened GameObjects

  /**
   * A new head one step ahead of a chained body extends the chain, and the
   * old head becomes the neck behind it.
   */
  lemma ExtendChain(body: seq<Cell>, d: Direction)
    requires |body| >= 1 && Chained(body)
    ensures Chained([NextHead(body[0], d)] + body)
    ensures NeckBehind([NextHead(body[0], d)] + body, d)
  {
    var longer := [NextHead(body[0], d)] + body;
    assert Adjacent(body[0], longer[0]);
    forall i | 0 <= i < |longer| - 1
      ensures Adjacent(longer[i + 1], longer[i])
    {
      if i > 0 {
        assert longer[i + 1] == body[i] && longer[i] == body[i - 1];
      }
    }
  }

  /** Dropping cells from the tail end keeps a body chained. */
  lemma ChainPrefix(body: seq<Cell>, k: nat)
    requires Chained(body) && k <= |body|
    ensures Chained(body[..k])
  {
    forall i | 0 <= i < k - 1
      ensures Adjacent(body[..k][i + 1], body[..k][i])
    {
      assert body[..k][i + 1] == body[i + 1] && body[..k][i] == body[i];
    }
  }

  /**
   * A head that turns by anything but a reversal can land neither on the
   * old head nor on the neck: it is not among the first two cells.
   */
  lemma HeadClearsNeck(body: seq<Cell>, dir: Direction, d: Direction)
    requires |body| >= 1 && InBounds(body[0]) && (|body| >= 2 ==> InBounds(body[1]))
    requires NeckBehind(body, dir) && d != Opposite(dir)
    ensures forall k :: 0 <= k <= 2 && k <= |body| ==> NextHead(body[0], d) !in body[..k]
  {
    NextHeadMoves(body[0], d);
    if |body| >= 2 {
      NoUTurn(body[1], dir, d);
    }
    forall k | 0 <= k <= 2 && k <= |body|
      ensures NextHead(body[0], d) !in body[..k]
    {
      assert forall c :: c in body[..k] ==> c == body[0] || (|body| >= 2 && c == body[1]);
    }
  }

  /**
   * `handle_keys` for the KEYDOWN events of one frame: each arrow key is
   * checked against the current direction, the accepted ones overwrite the
   * buffered direction one after another.
   */
  method HandleKeys(snake: Snake, keys: seq<Key>)
    requires snake.Settled()
    modifies snake
    ensures snake.Settled()
    ensures snake.nextDirection == AfterKeys(snake.direction, old(snake.nextDirection), keys)
    ensures snake.positions == old(snake.positions) && snake.direction == old(snake.direction)
    ensures snake.last == old(snake.last) && snake.newHead == old(snake.newHead)
  {
    for i := 0 to |keys|
      invariant snake.positions == old(snake.positions) && snake.direction == old(snake.direction)
      invariant snake.last == old(snake.last) && snake.newHead == old(snake.newHead)
      invariant snake.nextDirection == AfterKeys(snake.direction, old(snake.nextDirection), keys[..i])
      invariant snake.Settled()
    {
      assert keys[..i + 1][..i] == keys[..i];
      snake.nextDirection := Requested(snake.direction, snake.nextDirection, keys[i]);
    }
    assert keys[..|keys|] == keys;
  }

  /**
   * One game step. `resetDirection` stands for `choice(...)` in a reset and
   * (`col`, `row`) for the two `randint` draws of a re-placed apple.
   */
  method Tick(snake: Snake, apple: Apple, resetDirection: Direction, col: int, row: int)
    requires snake.Settled() && apple.Valid()
    requires 0 <= col < GridWidth && 0 <= row < GridHeight
    modifies snake, apple
    ensures snake.Settled() && apple.Valid()
    ensures var n := |old(snake.positions)|;
      var d := if old(snake.nextDirection).Some? then old(snake.nextDirection).value else old(snake.direction);
      var head := NextHead(old(snake.positions)[0], d);
      var ate := head == old(apple.position);
      var body := if ate then [head] + old(snake.positions) else [head] + old(snake.positions)[..n - 1];
      var bitten := head in body[1..];
      && d != Opposite(old(snake.direction))
      && snake.newHead == Some(head)
      && snake.nextDirection == None
      && apple.position == (if ate then GridCell(col, row) else old(apple.position))
      && (bitten ==> |body| >= 4)
      && (bitten ==> snake.positions == [Center] && snake.direction == resetDirection && snake.last == None)
      && (!bitten ==> snake.positions == body && snake.direction == d && snake.last == Some(old(snake.positions)[n - 1]))
  {
    ghost var before := snake.positions;
    ghost var oldDirection := snake.direction;
    snake.UpdateDirection();
    snake.Move();
    ghost var head := snake.newHead.value;
    HeadClearsNeck(before, oldDirection, snake.direction);
    ExtendChain(before, snake.direction);
    if snake.positions[0] == apple.position {
      snake.GrowUp();
      apple.RandomizePosition(col, row);
      assert snake.positions == [head] + before;
    } else {
      assert snake.positions == ([head] + before)[..|before|];
      ChainPrefix([head] + before, |before|);
    }
    assert |snake.positions| <= 3 ==> snake.positions[1..] == before[..|snake.positions| - 1];
    if snake.newHead.value in snake.positions[1..] {
      snake.Reset(resetDirection);
    }
  }

  /**
   * The first frame of a game: a fresh snake moving right with no key
   * pressed, the apple elsewhere, moves one square and drops its old cell.
   */
  method FirstStepScenario()
  {
    var snake := new Snake(Right);
    var apple := new Apple(0, 0);
    HandleKeys(snake, []);
    Tick(snake, apple, Up, 5, 5);
    assert snake.positions == [Cell(340, 240)];
    assert snake.last == Some(Center) && apple.position == Cell(0, 0);
  }
}
