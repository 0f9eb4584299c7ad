/**
 * The game objects as the program keeps them: a snake and an apple whose
 * fields are updated in place, the keyboard handler that loops over a batch
 * of key events, and the body of the main loop. Each method is specified by
 * the matching function of SnakeModel, where the game's properties are proved.
 */
module Game {
  import opened Options
  import opened Grid
  import SnakeModel

  class Snake {
    var length: int
    var positions: seq<Cell>
    var direction: Direction
    var nextDirection: Option<Direction>
    var last: Option<Cell>

    /** The fields as one value, for the specifications. */
    function State(): SnakeModel.SnakeState
      reads this
    {
      SnakeModel.SnakeState(length, positions, direction, nextDirection, last)
    }

    /** A new snake: one cell at the centre of the screen, heading right. */
    constructor()
      ensures State() == SnakeModel.Initial()
    {
      length := 1;
      positions := [Centre];
      direction := Right;
      nextDirection := None;
      last := None;
    }

    /** Applies the pending direction, if there is one, and clears it. */
    method UpdateDirection()
      modifies this
      ensures State() == SnakeModel.UpdateDirection(old(State()))
    {
      if nextDirection.Some? {
        direction := nextDirection.value;
        nextDirection := None;
      }
    }

    /**
     * Inserts the wrapped step of the head at index 0, then pops the tail into
     * `last` if the body holds more than `length + 1` cells.
     */
    method Move()
      requires positions != []
      modifies this
      ensures State() == SnakeModel.Move(old(State()))
    {
      var newHead := Step(GetHeadPosition(), direction);
      positions := [newHead] + positions;
      if |positions| > length + 1 {
        last := Some(positions[|positions| - 1]);
        positions := positions[..|positions| - 1];
      } else {
        last := None;
      }
    }

    /** The first cell of the body; on a valid snake it is a cell of the grid. */
    function GetHeadPosition(): (h: Cell)
      reads this
      requires positions != []
      ensures h in positions
      ensures SnakeModel.Valid(State()) ==> OnGrid(h)
    {
      positions[0]
    }

    /** Back to one cell at the centre with heading `d`, the random choice. */
    method Reset(d: Direction)
      modifies this
      ensures State() == SnakeModel.Reset(old(State()), d)
    {
      length := 1;
      positions := [Centre];
      direction := d;
      last := None;
    }
  }

  class Apple {
    var position: Cell

    /** A new apple at the grid cell drawn as (i, j). */
    constructor(i: int, j: int)
      requires 0 <= i <= GridWidth - 1 && 0 <= j <= GridHeight - 1
      ensures position == RandomizePosition(i, j) && OnGrid(position)
    {
      position := RandomizePosition(i, j);
    }
  }

  /**
   * Sets the snake's pending direction from a batch of key events, in order;
   * an arrow pointing against the current heading is ignored.
   */
  method HandleKeys(snake: Snake, keys: seq<SnakeModel.Key>)
    modifies snake
    ensures snake.State() == SnakeModel.HandleKeys(old(snake.State()), keys)
  {
    for n := 0 to |keys|
      invariant snake.State() == SnakeModel.HandleKeys(old(snake.State()), keys[..n])
    {
      var key := keys[n];
      if key == SnakeModel.KeyUp && snake.direction != Down {
        snake.nextDirection := Some(Up);
      } else if key == SnakeModel.KeyDown && snake.direction != Up {
        snake.nextDirection := Some(Down);
      } else if key == SnakeModel.KeyLeft && snake.direction != Right {
        snake.nextDirection := Some(Left);
      } else if key == SnakeModel.KeyRight && snake.direction != Left {
        snake.nextDirection := Some(Right);
      }
      assert keys[..n + 1][..n] == keys[..n];
    }
    assert keys[..|keys|] == keys;
  }

  /**
   * One tick of the main loop: keys, direction update, move; eating grows the
   * target length and re-places the apple at draw (i, j); then a head on its
   * own body resets the snake with heading `d`.
   */
  method Tick(snake: Snake, apple: Apple, keys: seq<SnakeModel.Key>, i: int, j: int, d: Direction)
    requires snake.positions != []
    requires 0 <= i <= GridWidth - 1 && 0 <= j <= GridHeight - 1
    modifies snake, apple
    ensures SnakeModel.World(snake.State(), apple.position)
         == SnakeModel.Tick(SnakeModel.World(old(snake.State()), old(apple.position)), keys, i, j, d)
  {
    HandleKeys(snake, keys);
    snake.UpdateDirection();
    snake.Move();

    if snake.GetHeadPosition() == apple.position {
      snake.length := snake.length + 1;
      apple.position := RandomizePosition(i, j);
    }

    if snake.GetHeadPosition() in snake.positions[1..] {
      snake.Reset(d);
    }
  }
}
