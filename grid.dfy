/**
 * The playing field: a 640 x 480 pixel screen cut into 20-pixel cells, so a
 * 32 x 24 grid whose edges wrap around (a torus). Positions are kept in
 * pixels, as the game does; a cell is "on the grid" when it lies inside the
 * screen and both coordinates are multiples of the cell size.
 */
module Grid {

  const ScreenWidth: int := 640
  const ScreenHeight: int := 480
  const GridSize: int := 20
  const GridWidth: int := ScreenWidth / GridSize
  const GridHeight: int := ScreenHeight / GridSize

  /** A position in pixels, (x, y), with y growing downwards. */
  type Cell = (int, int)

  /** The four headings of the snake. */
  datatype Direction = Up | Down | Left | Right

  /** The unit step of a heading: UP = (0, -1), DOWN = (0, 1), LEFT = (-1, 0), RIGHT = (1, 0). */
  function Dx(d: Direction): int {
    match d
    case Left => -1
    case Right => 1
    case _ => 0
  }

  function Dy(d: Direction): int {
    match d
    case Up => -1
    case Down => 1
    case _ => 0
  }

  /** The heading that undoes `d`, defined by name rather than by arithmetic. */
  function Opposite(d: Direction): (o: Direction)
    ensures Dx(o) == -Dx(d) && Dy(o) == -Dy(d)
    ensures o != d
  {
    match d
    case Up => Down
    case Down => Up
    case Left => Right
    case Right => Left
  }

  predicate Horizontal(d: Direction) {
    d == Left || d == Right
  }

  predicate InBounds(c: Cell) {
    0 <= c.0 < ScreenWidth && 0 <= c.1 < ScreenHeight
  }

  predicate Aligned(c: Cell) {
    c.0 % GridSize == 0 && c.1 % GridSize == 0
  }

  predicate OnGrid(c: Cell) {
    InBounds(c) && Aligned(c)
  }

  /** The centre of the screen, where a new or reset snake starts: (320, 240). */
  const Centre: Cell := (ScreenWidth / 2, ScreenHeight / 2)

  /**
   * The head that follows `c` one cell in direction `d`, wrapping around
   * the screen on both axes (pixel coordinates taken modulo the screen size).
   */
  function Step(c: Cell, d: Direction): (r: Cell)
    ensures InBounds(r)
  {
    ((c.0 + Dx(d) * GridSize) % ScreenWidth, (c.1 + Dy(d) * GridSize) % ScreenHeight)
  }

  /** A head on the grid lines stays on them after a step. */
  lemma StepOnGrid(c: Cell, d: Direction)
    requires OnGrid(c)
    ensures OnGrid(Step(c, d))
  {
    AlignedResidue(c.0 + Dx(d) * GridSize, ScreenWidth);
    AlignedResidue(c.1 + Dy(d) * GridSize, ScreenHeight);
  }

  /** The screen sides are whole numbers of cells, so wrapping keeps a coordinate on the grid lines. */
  lemma AlignedResidue(a: int, m: int)
    requires m == ScreenWidth || m == ScreenHeight
    requires a % GridSize == 0
    ensures (a % m) % GridSize == 0
  {
    var q := a / m;
    assert a == m * q + a % m;
    var k := a / GridSize;
    assert a == GridSize * k;
    if m == ScreenWidth {
      assert a % m == GridSize * (k - 32 * q);
    } else {
      assert a % m == GridSize * (k - 24 * q);
    }
  }

  /** Away from the edge the wrap does nothing: the head moves exactly one cell. */
  lemma StepInside(c: Cell, d: Direction)
    requires InBounds(c)
    requires InBounds((c.0 + Dx(d) * GridSize, c.1 + Dy(d) * GridSize))
    ensures Step(c, d) == (c.0 + Dx(d) * GridSize, c.1 + Dy(d) * GridSize)
  {
  }

  /** Leaving through one edge re-enters through the opposite one. */
  lemma StepWrapsAround(c: Cell)
    requires OnGrid(c)
    ensures c.0 == ScreenWidth - GridSize ==> Step(c, Right).0 == 0
    ensures c.0 == 0 ==> Step(c, Left).0 == ScreenWidth - GridSize
    ensures c.1 == ScreenHeight - GridSize ==> Step(c, Down).1 == 0
    ensures c.1 == 0 ==> Step(c, Up).1 == ScreenHeight - GridSize
  {
  }

  /** Adding to a residue is adding before taking it (used for wrapped steps). */
  lemma {:induction false} ModAdd(a: int, b: int, m: int)
    requires m == ScreenWidth || m == ScreenHeight
    ensures ((a % m) + b) % m == (a + b) % m
  {
  }

  /** Stepping back in the opposite direction returns to the cell left behind. */
  lemma StepUndone(c: Cell, d: Direction)
    requires InBounds(c)
    ensures Step(Step(c, d), Opposite(d)) == c
  {
    ModAdd(c.0 + Dx(d) * GridSize, -Dx(d) * GridSize, ScreenWidth);
    ModAdd(c.1 + Dy(d) * GridSize, -Dy(d) * GridSize, ScreenHeight);
  }

  /** The cell `n` cells from `c` in direction `d`, wrapped around the screen. */
  function Walk(c: Cell, d: Direction, n: nat): Cell {
    match d
    case Right => ((c.0 + n * GridSize) % ScreenWidth, c.1)
    case Left => ((c.0 - n * GridSize) % ScreenWidth, c.1)
    case Down => (c.0, (c.1 + n * GridSize) % ScreenHeight)
    case Up => (c.0, (c.1 - n * GridSize) % ScreenHeight)
  }

  lemma WalkZero(c: Cell, d: Direction)
    requires InBounds(c)
    ensures Walk(c, d, 0) == c
  {
  }

  /** The step written out per heading. */
  lemma StepAlong(c: Cell, d: Direction)
    requires InBounds(c)
    ensures d == Right ==> Step(c, d) == ((c.0 + GridSize) % ScreenWidth, c.1)
    ensures d == Left ==> Step(c, d) == ((c.0 - GridSize) % ScreenWidth, c.1)
    ensures d == Down ==> Step(c, d) == (c.0, (c.1 + GridSize) % ScreenHeight)
    ensures d == Up ==> Step(c, d) == (c.0, (c.1 - GridSize) % ScreenHeight)
  {
  }

  /** One more step extends a walk by one cell. */
  lemma WalkStep(c: Cell, d: Direction, n: nat)
    requires InBounds(c) && n > 0
    ensures Step(Walk(c, d, n - 1), d) == Walk(c, d, n)
  {
    var k := (n - 1) * GridSize;
    assert n * GridSize == k + GridSize;
    var p := Walk(c, d, n - 1);
    StepAlong(p, d);
    match d
    case Right => ModAdd(c.0 + k, GridSize, ScreenWidth);
    case Left => ModAdd(c.0 - k, -GridSize, ScreenWidth);
    case Down => ModAdd(c.1 + k, GridSize, ScreenHeight);
    case Up => ModAdd(c.1 - k, -GridSize, ScreenHeight);
  }

  /** A walk of a whole screen width (32 cells) or height (24 cells) comes back to its start. */
  lemma WalkFullLap(c: Cell, d: Direction)
    requires InBounds(c)
    ensures Horizontal(d) ==> Walk(c, d, GridWidth) == c
    ensures !Horizontal(d) ==> Walk(c, d, GridHeight) == c
  {
    assert GridWidth * GridSize == ScreenWidth && GridHeight * GridSize == ScreenHeight;
  }

  /**
   * The apple's new position: two random grid indices, i in [0, 31] and
   * j in [0, 23] (both ends included, as `randint` draws them), scaled to pixels.
   * The placement does not look at the snake.
   */
  function RandomizePosition(i: int, j: int): (r: Cell)
    requires 0 <= i <= GridWidth - 1 && 0 <= j <= GridHeight - 1
    ensures OnGrid(r)
  {
    (i * GridSize, j * GridSize)
  }

  /** Every cell on the grid is the image of exactly one pair of random draws. */
  lemma RandomizePositionCoversGrid(c: Cell)
    requires OnGrid(c)
    ensures 0 <= c.0 / GridSize <= GridWidth - 1 && 0 <= c.1 / GridSize <= GridHeight - 1
    ensures RandomizePosition(c.0 / GridSize, c.1 / GridSize) == c
  {
  }

  lemma RandomizePositionInjective(i: int, j: int, i': int, j': int)
    requires 0 <= i <= GridWidth - 1 && 0 <= j <= GridHeight - 1
    requires 0 <= i' <= GridWidth - 1 && 0 <= j' <= GridHeight - 1
    requires RandomizePosition(i, j) == RandomizePosition(i', j')
    ensures i == i' && j == j'
  {
  }
}
