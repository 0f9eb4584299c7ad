/**
 * The game state as values: the snake's fields, the key filter that sets its
 * pending direction, and one tick of the main loop. The class `Snake` in
 * module Game updates the same fields in place and is specified by the
 * functions here; the lemmas below state what the game promises about them.
 */
module SnakeModel {
  import opened Options
  import opened Grid

  /**
   * The snake's fields: target `length`, the body `positions` (head first),
   * the current `direction`, the `nextDirection` set by the keyboard and not
   * yet applied, and `last`, the tail cell popped by the latest move.
   */
  datatype SnakeState = SnakeState(
    length: int,
    positions: seq<Cell>,
    direction: Direction,
    nextDirection: Option<Direction>,
    last: Option<Cell>)

  /** The snake together with the apple's position: what one tick changes. */
  datatype World = World(snake: SnakeState, apple: Cell)

  /**
   * The snake's invariant: a positive target length, a non-empty body of at
   * most `length + 1` cells (one more than the target), every cell on the grid.
   */
  predicate Valid(s: SnakeState) {
    && 1 <= s.length
    && 1 <= |s.positions| <= s.length + 1
    && (forall i | 0 <= i < |s.positions| :: OnGrid(s.positions[i]))
    && (s.last.Some? ==> OnGrid(s.last.value))
  }

  /** Between two ticks no direction is pending and the apple is on the grid. */
  predicate ValidWorld(w: World) {
    Valid(w.snake) && w.snake.nextDirection == None && OnGrid(w.apple)
  }

  /** A new snake: one cell at the centre, heading right, nothing pending or popped. */
  function Initial(): (s: SnakeState)
    ensures Valid(s) && s.nextDirection == None
    ensures s.length == 1 && s.positions == [Centre] && s.direction == Right && s.last == None
    ensures s == Reset(s, Right)
  {
    SnakeState(1, [Centre], Right, None, None)
  }

  /** Applies the pending direction, if there is one, and clears it. */
  function UpdateDirection(s: SnakeState): (r: SnakeState)
    ensures r.nextDirection == None
    ensures s.nextDirection.Some? ==> r.direction == s.nextDirection.value
    ensures s.nextDirection == None ==> r == s
    ensures r.length == s.length && r.positions == s.positions && r.last == s.last
  {
    match s.nextDirection
    case Some(d) => s.(direction := d, nextDirection := None)
    case None => s
  }

  /**
   * One move: the wrapped step of the head is inserted at the front, and the
   * tail is popped into `last` when the body then holds more than
   * `length + 1` cells; otherwise `last` becomes None.
   */
  function Move(s: SnakeState): (r: SnakeState)
    requires |s.positions| > 0
    ensures |r.positions| > 0
    ensures r.positions[0] == Step(s.positions[0], s.direction)
    ensures r.last == None <==> |s.positions| <= s.length
    ensures r.last == None ==> |r.positions| == |s.positions| + 1
    ensures r.last != None ==> |r.positions| == |s.positions| && r.last == Some(s.positions[|s.positions| - 1])
    ensures r.positions[1..] == s.positions[..|r.positions| - 1]
    ensures r.length == s.length && r.direction == s.direction && r.nextDirection == s.nextDirection
  {
    var grown := [Step(s.positions[0], s.direction)] + s.positions;
    if |grown| > s.length + 1 then
      s.(positions := grown[..|grown| - 1], last := Some(grown[|grown| - 1]))
    else
      s.(positions := grown, last := None)
  }

  /** A move keeps the invariant: the body never exceeds `length + 1` cells and never empties. */
  lemma MoveKeepsValid(s: SnakeState)
    requires Valid(s)
    ensures Valid(Move(s))
  {
    var r := Move(s);
    StepOnGrid(s.positions[0], s.direction);
    forall i | 0 <= i < |r.positions|
      ensures OnGrid(r.positions[i])
    {
      if i > 0 {
        assert r.positions[i] == r.positions[1..][i - 1] == s.positions[i - 1];
      }
    }
  }

  /**
   * Back to the start: one cell at the centre, target length 1, nothing
   * popped, heading `d` (the random choice among the four directions).
   * The pending direction is left as it was.
   */
  function Reset(s: SnakeState, d: Direction): (r: SnakeState)
    ensures Valid(r)
    ensures r.length == 1 && r.positions == [Centre] && r.direction == d && r.last == None
    ensures r.nextDirection == s.nextDirection
  {
    SnakeState(1, [Centre], d, s.nextDirection, None)
  }

  /** Two resets in a row leave the same length and body; only the random heading may differ. */
  lemma ResetTwice(s: SnakeState, d1: Direction, d2: Direction)
    ensures Reset(Reset(s, d1), d2).length == Reset(s, d1).length == 1
    ensures Reset(Reset(s, d1), d2).positions == Reset(s, d1).positions
    ensures Reset(Reset(s, d1), d2) == Reset(s, d2)
  {
  }

  /** Applying the pending direction twice is applying it once. */
  lemma UpdateDirectionIdempotent(s: SnakeState)
    ensures UpdateDirection(UpdateDirection(s)) == UpdateDirection(s)
  {
  }

  // ---------------------------------------------------------------------
  // Keyboard

  /** A key-down event: one of the four arrows, or any other key. */
  datatype Key = KeyUp | KeyDown | KeyLeft | KeyRight | OtherKey

  /** The heading an arrow key asks for. */
  function KeyDirection(k: Key): Option<Direction> {
    match k
    case KeyUp => Some(Up)
    case KeyDown => Some(Down)
    case KeyLeft => Some(Left)
    case KeyRight => Some(Right)
    case OtherKey => None
  }

  /** A key is accepted when it is an arrow that does not point back against `dir`. */
  predicate Accepted(dir: Direction, k: Key) {
    KeyDirection(k).Some? && KeyDirection(k).value != Opposite(dir)
  }

  /** The pending direction after one key, judged against the current heading `dir`. */
  function ApplyKey(dir: Direction, k: Key, pending: Option<Direction>): (r: Option<Direction>)
    ensures Accepted(dir, k) ==> r.Some? && Some(r.value) == KeyDirection(k) && r.value != Opposite(dir)
    ensures !Accepted(dir, k) ==> r == pending
  {
    if Accepted(dir, k) then KeyDirection(k) else pending
  }

  /** The pending direction after a batch of keys, processed in order. */
  function Pending(dir: Direction, keys: seq<Key>, pending: Option<Direction>): (r: Option<Direction>)
    ensures r == pending || exists i | 0 <= i < |keys| :: Accepted(dir, keys[i]) && r == KeyDirection(keys[i])
    decreases |keys|
  {
    if keys == [] then pending
    else
      var front := keys[..|keys| - 1];
      var before := Pending(dir, front, pending);
      assert forall i | 0 <= i < |front| :: front[i] == keys[i];
      ApplyKey(dir, keys[|keys| - 1], before)
  }

  /** A batch of keys never queues the reverse of the current heading. */
  lemma {:induction false} PendingNeverReverses(dir: Direction, keys: seq<Key>, pending: Option<Direction>)
    ensures pending != Some(Opposite(dir)) ==> Pending(dir, keys, pending) != Some(Opposite(dir))
    decreases |keys|
  {
    if keys != [] {
      PendingNeverReverses(dir, keys[..|keys| - 1], pending);
    }
  }

  /** A batch with no accepted key leaves the pending direction as it was. */
  lemma {:induction false} PendingWithoutAcceptedKey(dir: Direction, keys: seq<Key>, pending: Option<Direction>)
    requires forall i | 0 <= i < |keys| :: !Accepted(dir, keys[i])
    ensures Pending(dir, keys, pending) == pending
    decreases |keys|
  {
    if keys != [] {
      var front := keys[..|keys| - 1];
      assert forall i | 0 <= i < |front| :: front[i] == keys[i];
      PendingWithoutAcceptedKey(dir, front, pending);
    }
  }

  /** When several keys are accepted, the last accepted one wins. */
  lemma {:induction false} PendingLastAcceptedWins(dir: Direction, keys: seq<Key>, pending: Option<Direction>, i: int)
    requires 0 <= i < |keys| && Accepted(dir, keys[i])
    requires forall j | i < j < |keys| :: !Accepted(dir, keys[j])
    ensures Pending(dir, keys, pending) == KeyDirection(keys[i])
    decreases |keys|
  {
    if i < |keys| - 1 {
      var front := keys[..|keys| - 1];
      assert forall j | 0 <= j < |front| :: front[j] == keys[j];
      PendingLastAcceptedWins(dir, front, pending, i);
    }
  }

  /** The key handler sets only the pending direction, judged against the current heading. */
  function HandleKeys(s: SnakeState, keys: seq<Key>): (r: SnakeState)
    ensures s.nextDirection != Some(Opposite(s.direction)) ==> r.nextDirection != Some(Opposite(s.direction))
    ensures r.(nextDirection := s.nextDirection) == s
  {
    PendingNeverReverses(s.direction, keys, s.nextDirection);
    s.(nextDirection := Pending(s.direction, keys, s.nextDirection))
  }

  /** Keys and the direction update of one tick never turn the snake straight back. */
  lemma NoReversalWithinTick(s: SnakeState, keys: seq<Key>)
    requires s.nextDirection != Some(Opposite(s.direction))
    ensures UpdateDirection(HandleKeys(s, keys)).direction != Opposite(s.direction)
  {
  }

  // ---------------------------------------------------------------------
  // One tick of the main loop

  /** The snake after keys, direction update and move: before eating and collision. */
  function Advanced(s: SnakeState, keys: seq<Key>): (r: SnakeState)
    requires |s.positions| > 0
    ensures |r.positions| > 0
    ensures r.length == s.length && r.nextDirection == None
    ensures r.positions[0] == Step(s.positions[0], r.direction)
    ensures |r.positions| <= |s.positions| + 1 && r.positions[1..] == s.positions[..|r.positions| - 1]
    ensures s.nextDirection != Some(Opposite(s.direction)) ==> r.direction != Opposite(s.direction)
  {
    Move(UpdateDirection(HandleKeys(s, keys)))
  }

  /** The moved head runs into the rest of the body (head included among `positions[1:]`). */
  predicate SelfCollision(s: SnakeState)
    requires |s.positions| > 0
    ensures SelfCollision(s) <==> exists i | 1 <= i < |s.positions| :: s.positions[i] == s.positions[0]
  {
    s.positions[0] in s.positions[1..]
  }

  /**
   * One tick: keys, direction update, move; if the head reaches the apple the
   * target length grows by one and the apple is re-placed at draw (i, j);
   * then, whether or not the apple was eaten, a head on its own body resets
   * the snake with heading `d`.
   */
  function Tick(w: World, keys: seq<Key>, i: int, j: int, d: Direction): (r: World)
    requires |w.snake.positions| > 0
    requires 0 <= i <= GridWidth - 1 && 0 <= j <= GridHeight - 1
    ensures |r.snake.positions| > 0
    ensures r.snake.nextDirection == None
  {
    var moved := Advanced(w.snake, keys);
    var eaten := moved.positions[0] == w.apple;
    var fed := if eaten then moved.(length := moved.length + 1) else moved;
    var apple := if eaten then RandomizePosition(i, j) else w.apple;
    var snake := if SelfCollision(fed) then Reset(fed, d) else fed;
    World(snake, apple)
  }

  /** A game starts in a valid world, and every tick keeps it valid. */
  lemma TickKeepsValid(w: World, keys: seq<Key>, i: int, j: int, d: Direction)
    requires ValidWorld(w)
    requires 0 <= i <= GridWidth - 1 && 0 <= j <= GridHeight - 1
    ensures ValidWorld(Tick(w, keys, i, j, d))
  {
    MoveKeepsValid(UpdateDirection(HandleKeys(w.snake, keys)));
  }

  /**
   * Eating: when the moved head is on the apple and does not hit the body,
   * the target length grows by exactly one, the body is unchanged by the
   * meal, and the apple is re-placed at the drawn cell.
   */
  lemma TickEats(w: World, keys: seq<Key>, i: int, j: int, d: Direction)
    requires |w.snake.positions| > 0
    requires 0 <= i <= GridWidth - 1 && 0 <= j <= GridHeight - 1
    requires Advanced(w.snake, keys).positions[0] == w.apple
    requires !SelfCollision(Advanced(w.snake, keys))
    ensures Tick(w, keys, i, j, d).snake.length == w.snake.length + 1
    ensures Tick(w, keys, i, j, d).snake.positions == Advanced(w.snake, keys).positions
    ensures Tick(w, keys, i, j, d).apple == RandomizePosition(i, j)
  {
  }

  /** Not eating and not colliding: the tick is just the move, and the apple stays. */
  lemma TickWithoutEvent(w: World, keys: seq<Key>, i: int, j: int, d: Direction)
    requires |w.snake.positions| > 0
    requires 0 <= i <= GridWidth - 1 && 0 <= j <= GridHeight - 1
    requires Advanced(w.snake, keys).positions[0] != w.apple
    requires !SelfCollision(Advanced(w.snake, keys))
    ensures Tick(w, keys, i, j, d) == World(Advanced(w.snake, keys), w.apple)
  {
  }

  /**
   * A self-collision resets the snake on that very tick, also on a tick on
   * which the apple was eaten (the growth is then lost, the apple still moves).
   */
  lemma TickCollisionResets(w: World, keys: seq<Key>, i: int, j: int, d: Direction)
    requires |w.snake.positions| > 0
    requires 0 <= i <= GridWidth - 1 && 0 <= j <= GridHeight - 1
    requires SelfCollision(Advanced(w.snake, keys))
    ensures Tick(w, keys, i, j, d).snake.length == 1
    ensures Tick(w, keys, i, j, d).snake.positions == [Centre]
    ensures Tick(w, keys, i, j, d).snake.direction == d
    ensures Tick(w, keys, i, j, d).snake.last == None
    ensures Advanced(w.snake, keys).positions[0] == w.apple ==> Tick(w, keys, i, j, d).apple == RandomizePosition(i, j)
    ensures Advanced(w.snake, keys).positions[0] != w.apple ==> Tick(w, keys, i, j, d).apple == w.apple
  {
  }

  /**
   * Growth shows on the next tick: after a meal the following move pops no
   * tail (`last` is None) and the body grows by one cell.
   */
  lemma GrowthShowsOnNextMove(w: World, keys: seq<Key>, i: int, j: int, d: Direction, keys': seq<Key>)
    requires ValidWorld(w)
    requires 0 <= i <= GridWidth - 1 && 0 <= j <= GridHeight - 1
    requires Advanced(w.snake, keys).positions[0] == w.apple
    requires !SelfCollision(Advanced(w.snake, keys))
    ensures var fed := Tick(w, keys, i, j, d).snake;
      && Advanced(fed, keys').last == None
      && |Advanced(fed, keys').positions| == |fed.positions| + 1
  {
    var moved := Advanced(w.snake, keys);
    MoveKeepsValid(UpdateDirection(HandleKeys(w.snake, keys)));
    assert |moved.positions| <= moved.length + 1;
  }

  /**
   * The apple is placed without looking at the snake: for every valid snake
   * some draw puts the apple on one of its cells (for one, the head).
   */
  lemma AppleMayLandOnSnake(s: SnakeState)
    requires Valid(s)
    ensures exists i, j | 0 <= i <= GridWidth - 1 && 0 <= j <= GridHeight - 1 :: RandomizePosition(i, j) in s.positions
  {
    var h := s.positions[0];
    RandomizePositionCoversGrid(h);
    assert RandomizePosition(h.0 / GridSize, h.1 / GridSize) in s.positions;
  }

  /**
   * A first meal: a new snake with the apple one cell ahead eats it on the
   * first tick (two cells, target length 2) and the second tick pops nothing,
   * leaving three cells.
   */
  lemma FirstMeal(i: int, j: int, d: Direction)
    requires 0 <= i <= GridWidth - 1 && 0 <= j <= GridHeight - 1
    requires RandomizePosition(i, j) != Step(Step(Centre, Right), Right)
    ensures var w1 := Tick(World(Initial(), Step(Centre, Right)), [], i, j, d);
      && w1.snake.length == 2 && |w1.snake.positions| == 2
      && var w2 := Tick(w1, [], i, j, d);
      && w2.snake.last == None && |w2.snake.positions| == 3 && w2.snake.length == 2
  {
    var c1 := Step(Centre, Right);
    var c2 := Step(c1, Right);
    assert c1 == (340, 240) && c2 == (360, 240);
    var w1 := Tick(World(Initial(), c1), [], i, j, d);
    assert Advanced(Initial(), []).positions == [c1, Centre];
    assert w1.snake == SnakeState(2, [c1, Centre], Right, None, None);
    assert Advanced(w1.snake, []).positions == [c2, c1, Centre];
  }

  // ---------------------------------------------------------------------
  // Straight runs

  /** `n` moves in a row with no key pressed. */
  function MoveN(s: SnakeState, n: nat): (r: SnakeState)
    requires |s.positions| > 0
    ensures |r.positions| > 0
  {
    if n == 0 then s else Move(MoveN(s, n - 1))
  }

  /** After `n` straight moves the head is `n` cells further along, wrapped around the screen. */
  lemma {:induction false} MoveNHead(s: SnakeState, n: nat)
    requires |s.positions| > 0 && InBounds(s.positions[0])
    ensures MoveN(s, n).direction == s.direction
    ensures MoveN(s, n).positions[0] == Walk(s.positions[0], s.direction, n)
  {
    if n == 0 {
      WalkZero(s.positions[0], s.direction);
    } else {
      MoveNHead(s, n - 1);
      WalkStep(s.positions[0], s.direction, n);
    }
  }

  /**
   * A full lap: 32 moves left or right, or 24 moves up or down, bring the
   * head back to the cell it started from.
   */
  lemma FullLapReturnsHead(s: SnakeState)
    requires |s.positions| > 0 && InBounds(s.positions[0])
    ensures Horizontal(s.direction) ==> MoveN(s, GridWidth).positions[0] == s.positions[0]
    ensures !Horizontal(s.direction) ==> MoveN(s, GridHeight).positions[0] == s.positions[0]
  {
    MoveNHead(s, GridWidth);
    MoveNHead(s, GridHeight);
    WalkFullLap(s.positions[0], s.direction);
  }
}
