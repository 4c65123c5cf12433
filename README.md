# Snake game state, modelled in Dafny

A model of the game-state update of a single-screen Snake game written in
Python with pygame (`the_snake.py`). The screen is 640 × 480 pixels with a
20-pixel grid. The snake is a list of cells in pixel coordinates, head first.
It also holds a length target, a current direction, a queued direction and
the tail cell it dropped most recently. Every frame the game does four
things in order:

1. It handles the key events. An arrow key queues its direction unless that
   direction is the reverse of the current one.
2. It applies the queued direction and clears the queue.
3. It moves the snake. The head steps one cell and wraps at the screen edges.
   If the new head is already in the body, the snake resets. Otherwise the new
   head goes in front. Then one tail cell is dropped if the body is longer than
   the length target.
4. If the head is on the apple, the length target grows by one and the apple
   moves to a random cell.

Modules:

- `Geometry` (geometry.dfy) holds the constants, cells, directions, the step
  and the wrap.
- `Controls` (controls.dfy) holds the key filter and the effect of a frame's
  events on the queued direction.
- `Snakes` (snake.dfy) holds the snake's state as a value (`SnakeState`), one
  function per operation (`Moved`, `Steered`, `Queued`, `Fed`, `ResetState`),
  the invariant `Inv`, the lemmas, and the class `Snake`. The class's methods
  update its fields in place. Each method's postcondition ties the new state to
  the function of the old state.
- `Apples` (apple.dfy) holds the class `Apple` and the placement rule.
- `Game` (game.dfy) holds the key handling loop, the relation between the
  states before and after one frame (`TickStep`), one frame (`Tick`) and the
  main loop (`Play`).

The random draws (`randint`, `choice`) are nondeterministic choices (`:|`).
Every property is therefore proved for every possible draw.

Notes on the game as written, which the model follows:

- The apple's column is drawn from 0 to 32 inclusive and its row from 0 to 24
  inclusive. The apple can therefore land one cell right of or below the
  screen (x = 640 or y = 480). The head never leaves the screen, so such an
  apple is never eaten (`Snakes.OffScreenAppleNeverEaten`).
- The apple is placed without regard to the snake's body. There are no stone
  or poison obstacles and no speed control.
- Self-collision is tested during the move, before the new head is inserted.
  It is tested against the whole body, including the tail cell that the same
  move would drop. Moving into the cell the tail is about to leave therefore
  resets the snake.
- A reset keeps the queued direction and the recorded dropped cell `last`.
- The direction filter compares a key with the current direction, not with
  the queued one. When several keys are pressed in one frame, the last
  accepted one wins.

## Model

| member | source | states |
|---|---|---|
| Geometry.Opposite | the_snake.py:12-15 | the reverse of a direction has the negated unit vector and is a different direction |
| Geometry.Step | the_snake.py:120-131 | before wrapping, the head moves exactly one coordinate by exactly one grid size, with the sign given by the direction's unit vector |
| Geometry.WrapX | the_snake.py:135-138 | the horizontal wrap equals x modulo the screen width, within [0, 640), for every x not more than one width left of the screen; it leaves on-screen x unchanged |
| Geometry.WrapY | the_snake.py:139-142 | the vertical wrap equals y modulo the screen height, within [0, 480), for every y not more than one height above the screen; it leaves on-screen y unchanged |
| Geometry.NextHead | the_snake.py:118-145 | from an on-screen, grid-aligned head, the new head is again on screen and grid-aligned; it is the step taken modulo the screen size (a torus) |
| Geometry.WrapsAround | the_snake.py:133-142 | a head on the last column moving right re-enters at column 0, and likewise for the other three edges |
| Controls.ArrowDirection | the_snake.py:198-205 | each arrow key stands for a direction and every other key for none |
| Controls.ArrowKeysDistinct | the_snake.py:198-205 | two different arrow keys stand for two different directions |
| Controls.Filter | the_snake.py:197-205 | a key press queues something exactly when it is an arrow key whose direction is not the reverse of the current one; what it queues is that key's own direction |
| Controls.QueueEvents | the_snake.py:193-205 | after a frame's events, the queue holds either what was pending before or the direction that one of the frame's key presses queues |
| Controls.QueueEventsNeverReverses | the_snake.py:193-205 | after all of a frame's events, the queued direction is never the reverse of the current direction |
| Controls.QueueEventsLastWins | the_snake.py:193-205 | in a frame without a quit request, an accepted key press at the end decides the queued direction, and a refused one leaves it as it was |
| Controls.QueueEventsIgnoresOther | the_snake.py:193-197 | an event that is neither a key press nor a quit request leaves the queue as it was |
| Controls.QueueEventsStopsAtQuit | the_snake.py:194-196 | events after a quit request are ignored: the queue is what the events before it left |
| Controls.QueueEventsIdempotent | the_snake.py:193-205 | pressing the same key twice at the end of a frame queues the same as pressing it once |
| Snakes.ResetState | the_snake.py:176-185 | a reset keeps the snake invariant |
| Snakes.Trimmed | the_snake.py:152-154 | drops the last cell, recording it in `last`, exactly when the body is longer than the length target, and otherwise keeps every cell and `last`; what remains is a prefix of the body; a body at most one over the target ends within it; nothing else changes |
| Snakes.Moved | the_snake.py:115-154 | the moved body is never empty, and a move keeps the body non-empty, no longer than the length target, on the grid and free of repeated cells, whatever direction a reset picks |
| Snakes.MovedWithoutCollision | the_snake.py:144-154 | if the new head is not in the body, it becomes element 0, the old body follows in its order, its last cell is dropped and becomes `last` exactly when the grown body is over the length target (so the body grows by one cell while it is within the target), and length target and directions are unchanged |
| Snakes.MovedOnCollision | the_snake.py:147-154 | if the new head is already in the body, the snake becomes the single centre cell with length target 1 and the chosen direction, with nothing dropped |
| Snakes.ChasingTailResets | the_snake.py:147-149 | a four-cell snake going round a square with length target 4 resets when its head reaches the cell its tail is about to leave |
| Snakes.Steered | the_snake.py:105-109 | the queue ends empty; a queued direction becomes the current one; with nothing queued nothing changes; body, length target and `last` are untouched |
| Snakes.SteeredIdempotent | the_snake.py:105-109 | applying the queue a second time changes nothing |
| Snakes.Queued | the_snake.py:193-205 | a frame's key handling changes only the queue, and if the queue did not hold the reverse of the current direction before, it does not afterwards |
| Snakes.SteeredAfterKeysNeverReverses | the_snake.py:221-223 | handling a frame's keys and then applying the queue never turns the snake to the reverse of its direction |
| Snakes.Eats | the_snake.py:227 | the head can only be on the apple when the apple is a body cell, so for a reachable snake only an apple on the grid is eaten |
| Snakes.Fed | the_snake.py:227-229 | when the head is on the apple the length target grows by exactly one, otherwise nothing changes; nothing but the length target ever changes, and the invariant is kept |
| Snakes.OffScreenAppleNeverEaten | the_snake.py:227-231 | an apple outside the screen is never under the head, so eating never happens |
| Snakes.Snake.constructor | the_snake.py:89-103 | a new snake is one centre cell, length target 1, moving right, with nothing queued or dropped |
| Snakes.Snake.UpdateDirection | the_snake.py:105-109 | the new state is the old one with the queue applied, and the invariant holds |
| Snakes.Snake.GetHeadPosition | the_snake.py:111-113 | returns the first cell of the body, which is on screen and grid-aligned |
| Snakes.Snake.Move | the_snake.py:115-154 | the new state is `Moved` of the old one, with the direction the reset chose if it happened; the invariant holds |
| Snakes.Snake.Reset | the_snake.py:176-185 | the snake becomes one centre cell with length target 1 and some direction; queue and `last` are unchanged; the invariant is kept |
| Apples.Drawn | the_snake.py:73-76 | a drawn column in 0..32 and row in 0..24 gives a cell whose coordinates are grid multiples in [0, 640] × [0, 480] |
| Apples.PlaceableIffDrawn | the_snake.py:71-76 | the cells a placement can produce are exactly the grid multiples in [0, 640] × [0, 480] |
| Apples.PlacementCanLeaveScreen | the_snake.py:73-76 | drawing the largest column puts the apple right of the screen for every row, and drawing the largest row puts it below the screen for every column |
| Apples.Apple.constructor | the_snake.py:66-69 | a new apple is on a placeable cell |
| Apples.Apple.RandomizePosition | the_snake.py:71-76 | after re-placing, the apple is on a placeable cell |
| Game.HandleKeys | the_snake.py:189-205 | reports a quit exactly when the frame has a quit request; the queued direction becomes `QueueEvents` of the events, and nothing else of the snake changes |
| Game.Tick | the_snake.py:218-231 | with a quit, only the keys before it took effect and the apple stays; otherwise the frame relates old and new snake and apple by `TickStep`: the snake is fed after moving after steering after the keys, and the apple is re-placed on a placeable cell exactly when eaten, else stays; the queue ends empty; the invariant and the apple's placement rule hold |
| Game.Play | the_snake.py:208-236 | returns a trace of snake states and apple cells starting from the initial snake; every frame before the first quit request is a `TickStep` from one entry of the trace to the next, and the objects end in the last entry (with the quit frame's earlier keys handled); the invariant and the placement rule hold at the end |

## Left out

- Drawing is not modelled: the `draw` methods, the colours, the clearing of
  the screen in `reset` and the display update are calls into pygame.
- Window, clock and frame-rate setup, `pygame.init`, event polling and
  `pygame.quit` are not modelled. A frame's events are a parameter, and a quit
  request ends the handling and the main loop.
- The `GameObject` base class and the unused `position` and colour fields it
  gives the snake are not modelled. Only the apple's `position` is used.
- Game.Play: the source loops forever; the model plays a finite sequence of
  frames.
- Geometry.WrapX: for x more than one screen width left of the screen the
  result stays negative, as in the source; a move never produces such an x.
- Geometry.WrapY: the same as WrapX, for y more than one screen height above
  the screen.
- Random draws are not modelled as random: `randint` and `choice` are
  arbitrary choices, and nothing is said about their distribution.
