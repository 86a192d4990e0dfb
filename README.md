# Snake game state, modelled in Dafny

A model of the game logic of `the_snake.py`, a pygame Snake game on a
640 x 480 pixel window cut into 20-pixel squares. Cells are addressed by
pixel coordinates, as in the program. The model covers:

- the board geometry: the four direction vectors, the toroidal step of the
  head `((x + dx*20) % 640, (y + dy*20) % 480)` and the grid cells the
  apple can be placed on (module `Geometry`, `geometry.dfy`);
- the arrow-key rule of `handle_keys`: a key buffers its direction unless it
  is the reverse of the current direction (module `Keys`, `keys.dfy`);
- the `Snake` class, whose methods update `positions`, `direction`,
  `next_direction`, `last` and `new_head` in place, and the `Apple` class,
  whose `position` is overwritten by each placement (module `GameObjects`,
  `objects.dfy`);
- one iteration of the main loop: the frame's key presses, then commit the
  buffered direction, move, eat (grow and re-place the apple) when the head
  is on the apple, and reset when the new head is on the rest of the body
  (module `Game`, `game.dfy`).

The random choices (`choice` of the reset direction, the two `randint` draws
of the apple's column and row) are parameters restricted to the values the
random functions can return. Python's `%` floors while Dafny's is Euclidean;
the two agree because every divisor here is a positive constant.

Besides what each operation does, the model proves that between frames the
body is a chain of adjacent cells whose neck lies one step behind the head in
the current direction (`Snake.Settled`). With the reversal rule this means a
snake cannot bite its head or its neck, so a reset happens only when the body
has at least four cells after moving.

The snake's length is `|positions|`. The program keeps no length counter:
`self.lenth` is set in `reset` and never read. It has no win state, no speed
control (`SPEED` is a constant), and the apple is placed on any grid cell,
including one the snake occupies.

## Model

| member | source | states |
|---|---|---|
| Geometry.Opposite | the_snake.py:12-15 | the reverse of a direction has the negated vector and differs from it |
| Geometry.NextHead | the_snake.py:86-87 | the wrapped next head always lies inside the 640 x 480 window, whatever the start |
| Geometry.NextHeadOnBoard | the_snake.py:86-87 | a step from a grid-aligned in-window cell lands on a grid-aligned in-window cell |
| Geometry.NextHeadUndo | the_snake.py:86-87 | stepping in the opposite direction returns to the cell a step started from |
| Geometry.NextHeadMoves | the_snake.py:86-87 | a step never stays on the same cell |
| Geometry.NextHeadInjective | the_snake.py:86-87 | from one cell, two directions that reach the same cell are the same direction |
| Geometry.NoUTurn | the_snake.py:86-87 | two steps return to the start if and only if the second is the reverse of the first |
| Geometry.LeftEdgeWraps | the_snake.py:86-87 | moving LEFT from x = 0 lands on x = 620 in the same row |
| Geometry.RightEdgeWraps | the_snake.py:86-87 | moving RIGHT from x = 620 lands on x = 0 in the same row |
| Geometry.TopEdgeWraps | the_snake.py:86-87 | moving UP from y = 0 lands on y = 460 in the same column |
| Geometry.BottomEdgeWraps | the_snake.py:86-87 | moving DOWN from y = 460 lands on y = 0 in the same column |
| Geometry.GridCell | the_snake.py:145-148 | a placement drawn from column 0..31 and row 0..23 is a grid-aligned in-window cell, and its column and row are recovered by division |
| Geometry.GridCellCoversBoard | the_snake.py:145-148 | every grid-aligned in-window cell is the placement of some legal column and row |
| Keys.Requested | the_snake.py:164-171 | the chain of key tests equals the rule "an arrow key buffers its direction unless it is the reverse of the current one; anything else leaves the buffer alone" |
| Keys.AfterKeysNeverReverses | the_snake.py:159-171 | after any sequence of key presses the buffered direction is never the reverse of the current direction |
| Keys.AfterKeysIsLastAccepted | the_snake.py:159-171 | after a frame's key presses the buffer holds the last accepted arrow key's direction, or its old value when no key was accepted |
| GameObjects.Snake.constructor | the_snake.py:66-70 | a new snake is one cell at the centre, with nothing buffered, no dropped tail and no new head |
| GameObjects.Snake.Head | the_snake.py:113-115 | the head is the first cell of the body and is always a board cell |
| GameObjects.Snake.UpdateDirection | the_snake.py:72-76 | a buffered direction becomes the direction and the buffer is cleared, otherwise the direction stays; the new direction is never the reverse of the old |
| GameObjects.Snake.Move | the_snake.py:78-90 | the body becomes the wrapped new head followed by all but the last old cell, `last` is the old last cell, the length is unchanged and every cell stays on the board |
| GameObjects.Snake.GrowUp | the_snake.py:92-94 | the dropped tail is appended again, so the body grows by exactly one cell |
| GameObjects.Snake.Reset | the_snake.py:117-124 | the body is the single centre cell, the direction is the drawn one, the buffer and `last` are cleared |
| GameObjects.Apple.constructor | the_snake.py:133-137 | a new apple sits on the drawn grid cell |
| GameObjects.Apple.RandomizePosition | the_snake.py:139-148 | the apple moves to the drawn grid cell, which is aligned and inside the window |
| Game.ExtendChain | the_snake.py:89-94 | a head one step ahead of a connected body keeps it connected, with the old head as the neck behind it |
| Game.ChainPrefix | the_snake.py:89-90 | dropping cells from the tail keeps the body connected |
| Game.HeadClearsNeck | the_snake.py:188-196 | after any turn that is not a reversal, the new head is neither the old head nor the neck |
| Game.HandleKeys | the_snake.py:157-171 | the buffer ends as the fold of the acceptance rule over the frame's keys; the body, direction and `last` are untouched |
| Game.Tick | the_snake.py:188-197 | the committed direction is not the reverse of the old one; the snake eats exactly when the new head is on the apple, and then the apple moves to the drawn cell and the body keeps all its old cells; otherwise the body keeps its length; the snake resets exactly when the new head lies on the rest of that body, which needs at least four cells; between frames the body stays a connected chain |

## Left out

- Drawing: the `draw` methods, the screen, colours, `pygame.Rect` and `display.update` (the_snake.py:96-111, 150-154, 199-203) are graphics calls with no game logic.
- The QUIT event, `pygame.quit` and `SystemExit` (the_snake.py:159-162): program exit is I/O. `Game.HandleKeys` takes the keys of the frame's KEYDOWN events; other events change nothing.
- The frame clock `clock.tick(SPEED)` and the endless `while True` (the_snake.py:185-186): one iteration is modelled as `Game.HandleKeys` followed by `Game.Tick`.
- The random number generator itself: its results are parameters.
- Window setup at module level (the_snake.py:33-39) and `pygame.init`.
- The `position` and `body_color` attributes that the snake inherits from `GameObject` and the never-read `lenth` attribute: nothing in the game logic reads them.
- GameObjects.Snake.GrowUp: requires a preceding move (`last` is set). Called right after a reset, the program would append `None` to the body; its only caller calls it right after `move`.
