# Snake: a verified model of the game state

This project models the game logic of a small Snake game (`the_snake.py`).
The screen is 640 x 480 pixels. It is cut into 20-pixel cells, which gives a
32 x 24 grid whose edges wrap around. The snake keeps these fields:

- a target `length`;
- its body `positions`, in pixels, head first;
- its current `direction`;
- a `nextDirection` that the keyboard sets and the next tick applies;
- `last`, the tail cell popped by the latest move.

The source's `Snake` also has a `position` field. It is set to the screen centre (320, 240) at construction and never assigned again, and `reset` reads it. The model therefore uses the constant `Centre` in its place.

One tick of the main loop does these steps in order:

1. read the keys;
2. apply the pending direction;
3. move the head one cell, wrapping at the edges;
4. if the head is on the apple, grow the target length by one and re-place the apple at a random cell;
5. if the head is on the rest of the body, reset the snake to one cell at the centre with a random heading.

The project has four modules:

- `Grid` (`grid.dfy`) holds the screen and grid constants, directions, the wrapping step `Step` and the apple placement `RandomizePosition`. It proves that the step stays on the grid, that the opposite step undoes it, and that a full lap comes back to the start.
- `SnakeModel` (`snake_model.dfy`) is the game state as values. `SnakeState` and `World` are the data. `Move`, `UpdateDirection`, `Reset`, the key filter `Pending`/`HandleKeys` and `Tick` are the operations. The lemmas state what the game does: the body bound, the key filter, eating and collision.
- `Game` (`game.dfy`) is the program's own form. Classes `Snake` and `Apple` have the same fields, except `Snake.position`, which is the constant `Centre`. They are updated in place. `HandleKeys` loops over key events. `Tick` is the body of the main loop. Each method is specified by the matching `SnakeModel` function.
- `Options` (`options.dfy`) holds the `Option` type for Python's `None`.

Randomness enters as parameters:

- `choice` in `reset` is a `Direction` argument;
- the two `randint` draws of the apple are integers `i` in [0, 31] and `j` in [0, 23].

Behaviour of the code that a player of Snake might not expect:

- The body holds up to `length + 1` cells, not `length`: the tail is popped only when the list is longer than `length + 1`.
- The apple is placed at any grid cell, including cells of the snake (`AppleMayLandOnSnake`). It is not re-drawn until free.
- `reset` does not clear the pending direction. A reset snake keeps `nextDirection`, which is always None at that point of a tick.
- Self-collision is checked on every tick. A tick that eats the apple and hits the body still resets. The growth is then lost, and the apple still moves.

## Model

| member | source | states |
|---|---|---|
| `Grid.Opposite` | the_snake.py:151-158 | the heading each arrow key may not replace: its unit step is the negation of the current one, and it is never the current heading |
| `Grid.Step` | the_snake.py:103-106 | the wrapped head always lies inside the 640 x 480 screen |
| `Grid.StepOnGrid` | the_snake.py:103-106 | a head on the 20-pixel grid lines stays on them after the wrapped step |
| `Grid.StepAlong` | the_snake.py:104-106 | from a cell on the screen, each heading moves 20 pixels along one axis only, wrapped, and leaves the other coordinate as it is |
| `Grid.StepInside` | the_snake.py:105-106 | away from the edges the wrap is inactive and the head moves exactly 20 pixels along the heading |
| `Grid.StepWrapsAround` | the_snake.py:105-106 | leaving the last column or row re-enters at the first one, and the reverse |
| `Grid.StepUndone` | the_snake.py:105-106 | a step followed by a step in the opposite heading returns to the starting cell |
| `Grid.WalkStep` | the_snake.py:105-106 | one more wrapped step extends an n-cell walk to an (n+1)-cell walk |
| `Grid.WalkFullLap` | the_snake.py:6-9 | 32 cells across or 24 cells down is exactly one screen, so a walk that long returns to its start |
| `Grid.RandomizePosition` | the_snake.py:67-71 | draws i in [0, 31] and j in [0, 23] give a cell inside the screen and on the grid |
| `Grid.RandomizePositionCoversGrid` | the_snake.py:67-71 | every grid cell is produced by some pair of draws in range |
| `Grid.RandomizePositionInjective` | the_snake.py:67-71 | different draws give different cells |
| `SnakeModel.Initial` | the_snake.py:83-93 | a new snake is one cell at the centre (320, 240), length 1, heading right, nothing pending or popped; it equals the reset state with heading right and satisfies the snake invariant |
| `SnakeModel.UpdateDirection` | the_snake.py:95-99 | a pending direction becomes the heading and is cleared; with nothing pending the state is unchanged; the body is never touched |
| `SnakeModel.UpdateDirectionIdempotent` | the_snake.py:95-99 | applying the pending direction twice equals applying it once |
| `SnakeModel.Move` | the_snake.py:101-113 | the new head is the wrapped step at index 0 with the old cells behind it in order; the tail is popped into `last` exactly when the old body had more than `length` cells, otherwise `last` is None and the body grows by one |
| `SnakeModel.MoveKeepsValid` | the_snake.py:107-113 | a move keeps the body non-empty, at most `length + 1` cells long and on the grid |
| `SnakeModel.Reset` | the_snake.py:136-141 | reset gives length 1, the single cell (320, 240), the chosen heading and no `last`, and leaves the pending direction as it was |
| `SnakeModel.ResetTwice` | the_snake.py:136-141 | two resets in a row give the same length and body, and differ at most in the random heading |
| `SnakeModel.ApplyKey` | the_snake.py:150-158 | one key event: an accepted arrow sets the pending direction to its heading, which is never the reverse of the current one; any other key leaves it as it was |
| `SnakeModel.Pending` | the_snake.py:146-158 | after a batch of key events the pending direction is either the one before the batch or the heading of some accepted key in it |
| `SnakeModel.PendingNeverReverses` | the_snake.py:150-158 | a batch of keys never queues the exact opposite of the current heading |
| `SnakeModel.PendingWithoutAcceptedKey` | the_snake.py:150-158 | if no key in the batch is an acceptable arrow, the pending direction is unchanged |
| `SnakeModel.PendingLastAcceptedWins` | the_snake.py:150-158 | with several accepted keys in one batch, the last accepted one is the pending direction |
| `SnakeModel.HandleKeys` | the_snake.py:144-158 | the key handler changes only the pending direction and never sets it to the reverse of the heading |
| `SnakeModel.NoReversalWithinTick` | the_snake.py:169-170 | keys plus the direction update of one tick never turn the snake straight back |
| `SnakeModel.Advanced` | the_snake.py:169-171 | keys, direction update and move leave the target length, nothing pending, the new head one wrapped step along the new heading with the old cells behind it, and no reversal of the heading |
| `SnakeModel.SelfCollision` | the_snake.py:177 | the head is in `positions[1:]` exactly when some later index of the body holds the head's cell |
| `SnakeModel.Tick` | the_snake.py:169-178 | after a tick the body is non-empty and no direction is pending |
| `SnakeModel.TickKeepsValid` | the_snake.py:169-178 | every tick keeps the snake invariant, the apple on the grid and nothing pending |
| `SnakeModel.TickEats` | the_snake.py:173-175 | a head on the apple without collision adds exactly one to the target length, leaves the moved body as it is, and re-places the apple at the drawn cell |
| `SnakeModel.TickWithoutEvent` | the_snake.py:169-178 | with no meal and no collision, a tick is just the move and the apple stays |
| `SnakeModel.TickCollisionResets` | the_snake.py:173-178 | a head on its own body resets the snake (length 1, centre, heading d, no `last`) on that tick, even on a tick on which the apple was eaten; the apple moves exactly when it was eaten |
| `SnakeModel.GrowthShowsOnNextMove` | the_snake.py:110-113 | after a meal the next move pops no tail and the body grows by exactly one cell |
| `SnakeModel.AppleMayLandOnSnake` | the_snake.py:67-71 | for every snake some draw places the apple on one of its cells, because placement does not check the body |
| `SnakeModel.FirstMeal` | the_snake.py:169-178 | a new snake with the apple one cell ahead has two cells and target length 2 after one tick, and three cells with nothing popped after the next |
| `SnakeModel.MoveNHead` | the_snake.py:101-113 | after n straight moves the head is n cells further along the heading, wrapped |
| `SnakeModel.FullLapReturnsHead` | the_snake.py:105-106 | 32 moves left or right, or 24 up or down, bring the head back to its starting cell |
| `Game.Snake.constructor` | the_snake.py:83-93 | the fields of a new snake are the initial state |
| `Game.Snake.UpdateDirection` | the_snake.py:95-99 | the in-place update equals the value-level direction update |
| `Game.Snake.Move` | the_snake.py:101-113 | the in-place insert and pop equal the value-level move |
| `Game.Snake.GetHeadPosition` | the_snake.py:132-134 | the head is a cell of the body and, on a valid snake, a grid cell |
| `Game.Snake.Reset` | the_snake.py:136-141 | the in-place reset equals the value-level reset |
| `Game.Apple.constructor` | the_snake.py:61-65 | a new apple stands at the drawn grid cell |
| `Game.HandleKeys` | the_snake.py:144-158 | the loop over key events leaves exactly the pending direction the key filter gives |
| `Game.Tick` | the_snake.py:169-178 | the main-loop body leaves the snake and apple in the state the value-level tick gives |

## Left out

- Drawing is not modelled: window, caption and clock set-up (the_snake.py:33-39), the `draw` methods (the_snake.py:53-55, 73-77, 115-130) and the screen fill and update (the_snake.py:180-183). They are rendering only. Colours and `body_color` go with them.
- The quit path (`pygame.QUIT`, `pygame.quit`, `SystemExit`, the_snake.py:146-149) is not modelled. Key events are given as a sequence of `Key` values. Events that are not arrow keys are `OtherKey`, which changes nothing.
- Frame pacing (`clock.tick`) and the endless `while True` loop are not modelled. `Tick` is one pass of the loop. `TickKeepsValid` carries the invariant from one pass to the next.
- `Game.Tick`: the random draws are always parameters, even though the source calls `randint` only when the apple is eaten. The draws are ignored on other ticks.
- `Game.Snake.Reset`: the call to `choice` is replaced by the direction argument. Every direction can be passed, so no outcome of the random choice is lost.
