# Snake game engine, modelled in Dafny

This project models the simulation core of a pygame snake game
(`the_snake.py`). The screen is 640 x 480 pixels, cut into 20-pixel cells.
It holds four objects:

- a snake, which is a list of cells with the head first;
- an apple, which makes the snake grow;
- a poison, which makes it shrink, never below one cell;
- a rock, which is lethal.

The head wraps around the screen edges. Running into its own body or into
the rock resets the snake to one cell at a random place.

The modules follow the parts of the program:

- `Grid` (grid.dfy): the screen and grid constants and the four directions.
  It holds the head step with wrap-around, which uses Python's non-negative
  `%` (Dafny's `%` agrees for the positive divisors used). It also holds the
  random choice of a cell.
- `GameObjects` (game_object.dfy): the positioned object that the apple, the
  poison and the rock all are, with `randomize_position`.
- `Snakes` (snake.dfy): the `Snake` class with the fields `positions`,
  `length`, `direction`, `next_direction` and `last`, and its methods.
  `Valid()` is the invariant every method keeps:
  - the body is non-empty;
  - every cell is grid-aligned and on screen;
  - the length is at least 1;
  - the buffered direction never reverses the committed one;
  - the last popped cell, when there is one, is a grid cell.
- `Controls` (controls.dfy): the per-key rule of `handle_keys`, and one poll
  as a fold over that rule.
- `Engine` (engine.dfy): the `Game` class with one tick of the main loop.
  The tick commits the direction and moves. Then it runs the apple check,
  the poison check and the lethal check, each on its own.
- `Scenarios` (scenarios.dfy): client runs that use only the contracts.
  They cover growth, a shrink that pops two cells, self-collision, and a
  reverse key that is ignored.
- `Wrappers` (wrappers.dfy): `Option`, used for `next_direction` and `last`.

Coordinates are pixels, as in the code. Every cell is a multiple of 20 in
[0, 640) x [0, 480).

Four behaviours of the code are worth noting; the model follows each:

- Item placement does not avoid the snake or the other items. The model never
  claims that it does.
- Only the last popped tail cell is remembered in `last`. There is no set of
  trimmed cells. When a move pops two cells, `last` holds the one nearer the
  head.
- A lethal hit redraws the rock as well as the apple.
- `reset` puts the snake at a random cell, not at the centre.

## Model

| member | source | states |
|---|---|---|
| Grid.Direction.Opposite | the_snake.py:12-15 | the reverse heading negates both components of the unit vector and is never the heading itself |
| Grid.OnGridIsBoardCell | the_snake.py:82-85 | a cell is grid-aligned and on screen exactly when it is (20i, 20j) for a column i < 32 and a row j < 24 |
| Grid.NextCell | the_snake.py:147-150 | the new head is always inside the screen, and a grid-aligned head stays grid-aligned |
| Grid.NextCellIsNeighbour | the_snake.py:149-150 | on the grid, the remainder arithmetic is the one-cell step that re-enters at the far edge: right from x=620 gives x=0, left from x=0 gives x=620, and likewise for y at 0 and 460 |
| Grid.NextCellOpposite | the_snake.py:149-150 | a step followed by a step in the reverse direction returns to the starting cell |
| Grid.RandomCell | the_snake.py:82-85 | the drawn cell is a grid-aligned cell on the screen |
| GameObjects.GameObject.constructor | the_snake.py:60-62 | a new object sits at the screen centre (320, 240), which is a grid cell |
| GameObjects.GameObject.RandomizePosition | the_snake.py:75-85 | the object moves to some grid-aligned on-screen cell, chosen with no regard to other objects |
| Snakes.Moved | the_snake.py:147-154 | after a move the body has min(old size + 1, length) cells; its first cell is the stepped head and the rest is a prefix of the old body |
| Snakes.MovedOnGrid | the_snake.py:147-154 | a move keeps every segment a grid-aligned cell on the screen |
| Snakes.ClampedLength | the_snake.py:178-180 | the new length is length + delta when that is at least 1, and 1 otherwise |
| Snakes.Snake.constructor | the_snake.py:120-127 | a new snake has one segment at the centre, length 1, heading right, an empty buffer and no popped cell |
| Snakes.Snake.UpdateDirection | the_snake.py:129-138 | a buffered direction becomes the direction and the buffer empties; with no buffer nothing changes; the new direction is `Committed` of the old direction and buffer; the direction never flips to its reverse |
| Snakes.Snake.Move | the_snake.py:140-154 | the body becomes Moved(old body, direction, length); `last` becomes the last popped cell, old body[length-1], when anything was popped and keeps its old value otherwise; nothing else changes |
| Snakes.Snake.ChangeLength | the_snake.py:178-180 | the length becomes max(1, length + delta) and the body is untouched until the next move |
| Snakes.Snake.Reset | the_snake.py:182-191 | length 1, a single grid-aligned segment, heading right, empty buffer; `last` is untouched |
| Snakes.Snake.GetHeadPosition | the_snake.py:193-196 | the head is the first segment and is a grid cell |
| Snakes.Snake.GetCollision | the_snake.py:198-205 | with an object, true iff the head is on the object's cell; without one, true iff the head equals some later segment, so a one-cell snake never collides with itself |
| Controls.NextAfterKey | the_snake.py:259-267 | an arrow key sets the buffer to its heading exactly when that heading is not the reverse of the committed direction; the buffered value plays no part in the test; any other key leaves the buffer alone |
| Controls.LastAccepted | the_snake.py:255-267 | the last accepted key of a poll never points opposite to the committed direction |
| Controls.PollSnoc | the_snake.py:255-267 | handling one more event applies the key rule to the buffer left by the earlier events |
| Controls.PollAppend | the_snake.py:255-267 | handling two runs of events one after the other is handling their concatenation |
| Controls.PollIsLastAccepted | the_snake.py:255-267 | after a poll the buffer holds the heading of the last accepted key; with no accepted key it is unchanged |
| Controls.ReverseKeyIgnored | the_snake.py:260-267 | removing a reverse-of-committed key from anywhere in a poll does not change the result |
| Controls.HandleKeys | the_snake.py:253-267 | only the buffer changes; it ends as the fold of the key rule over the events, i.e. the last accepted heading or its old value |
| Engine.Game.constructor | the_snake.py:274-280 | the snake starts in its initial state and the three items sit on grid cells |
| Engine.Game.AppleCheck | the_snake.py:289-292 | a head on the apple raises the length by exactly 1 and redraws the apple; otherwise both are unchanged |
| Engine.Game.PoisonCheck | the_snake.py:294-297 | a head on the poison lowers the length by 1 but not below 1 and redraws the poison; otherwise both are unchanged |
| Engine.Game.LethalCheck | the_snake.py:299-303 | a head on the body or on the rock resets the snake and redraws apple and rock; otherwise the snake, apple and rock are untouched |
| Engine.Game.Tick | the_snake.py:286-303 | the snake moves in the committed direction; the apple, poison and lethal checks are each judged on the moved head; apple only adds exactly 1 to the length, poison only subtracts 1 but not below 1, both together leave it unchanged; a lethal hit ends in the reset state; the buffer ends empty; apart from the redraws of a lethal hit, an item not hit keeps its cell |
| Engine.Game.Frame | the_snake.py:285-303 | the whole new state is the tick's outcome with the direction committed from the key poll (the last accepted key, else the old buffer, else the old direction); the snake ends facing its old direction's reverse only when the tick's lethal check fired |
| Engine.Game.Run | the_snake.py:282-303 | over any finite run of polls, every position stays a grid cell, the length stays at least 1 and the buffer never reverses the direction |

## Left out

- Drawing: the pygame display, caption, clock, `screen.fill`, `display.update` and every `draw` method (the_snake.py:39-45, 64-73, 156-176, 241-250, 283, 305-310). They are rendering and frame pacing.
- The quit event, `pygame.quit()` and `SystemExit` (the_snake.py:256-258). They end the process. Every other non-key event is modelled as `OtherEvent`, which the key rule ignores.
- The unbounded `while True` loop (the_snake.py:282). `Engine.Game.Run` models a finite prefix of it.
- Grid.RandomCell: states only that the cell is on the grid, not that `randint` draws uniformly; probability is outside what is verified here. `Reset` and `RandomizePosition` draw through it.
- Colours and `body_color` (the_snake.py:17-36, 62, 101, 126, 222, 239). They have no behaviour. `SPEED` only paces the clock.
- The `position` field that `Snake` inherits from `GameObject`. The snake sets it once and never reads it; its `positions` list is used instead.
- `Apple`, `Rock` and `Poison` as separate classes. They differ only in colour and drawing. The model uses one `GameObject` class, and the `Game` field name gives each one's role.
