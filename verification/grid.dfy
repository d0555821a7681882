/** The occupancy grid of the Snackade arena: the sprite weights, the grid size,
    the four unit directions, the initial layout and the GameBox that owns the
    grid and the cached snack location. */
module Grid {

  datatype Option<T> = None | Some(value: T)

  /** A grid cell (x, y); x grows to the right, y grows downwards. */
  type Cell = (int, int)

  /** A direction vector (dx, dy). */
  type Vec = (int, int)

  // Every sprite adds its weight to the counter of the cell it covers.
  const GVAL_CLEAR := 0
  const GVAL_BORDER := 1
  const GVAL_PLAYER := 1
  const GVAL_SNACK := 10

  // Largest coordinates: the grid has cells 0..GRID_XSIZE by 0..GRID_YSIZE.
  const GRID_XSIZE := 23
  const GRID_YSIZE := 15

  const UP: Vec := (0, -1)
  const DOWN: Vec := (0, 1)
  const LEFT: Vec := (-1, 0)
  const RIGHT: Vec := (1, 0)

  predicate IsUnit(d: Vec) {
    d == UP || d == DOWN || d == LEFT || d == RIGHT
  }

  /** A direction a player may hold: standing still or one of the four units. */
  predicate IsDirection(d: Vec) {
    d == (0, 0) || IsUnit(d)
  }

  predicate InGrid(c: Cell) {
    0 <= c.0 <= GRID_XSIZE && 0 <= c.1 <= GRID_YSIZE
  }

  predicate OnBorder(c: Cell) {
    c.0 == 0 || c.0 == GRID_XSIZE || c.1 == 0 || c.1 == GRID_YSIZE
  }

  predicate Interior(c: Cell) {
    0 < c.0 < GRID_XSIZE && 0 < c.1 < GRID_YSIZE
  }

  /** The counter a cell holds in a freshly initialised grid: the wall weight on
      the border, nothing inside. */
  function BorderValue(c: Cell): int {
    if OnBorder(c) then GVAL_BORDER else GVAL_CLEAR
  }

  predicate HasGridShape(g: array2<int>) {
    g.Length0 == GRID_XSIZE + 1 && g.Length1 == GRID_YSIZE + 1
  }

  ghost predicate IsInitialGrid(g: array2<int>)
    requires HasGridShape(g)
    reads g
  {
    forall x, y :: 0 <= x <= GRID_XSIZE && 0 <= y <= GRID_YSIZE ==> g[x, y] == BorderValue((x, y))
  }

  /** cells gives, for every cell of the grid, the counter the grid holds:
      the grid's counters as a value. */
  ghost predicate Mirrors(g: array2<int>, cells: Cell -> int)
    requires HasGridShape(g)
    reads g
  {
    forall x, y :: 0 <= x <= GRID_XSIZE && 0 <= y <= GRID_YSIZE ==> cells((x, y)) == g[x, y]
  }

  /** init_grid: clear every cell, then mark the top and bottom rows and the
      left and right columns as wall. */
  method InitGrid(g: array2<int>)
    requires HasGridShape(g)
    modifies g
    ensures IsInitialGrid(g)
  {
    for x := 0 to GRID_XSIZE + 1
      invariant forall i, j :: 0 <= i < x && 0 <= j <= GRID_YSIZE ==> g[i, j] == GVAL_CLEAR
    {
      for y := 0 to GRID_YSIZE + 1
        invariant forall i, j :: 0 <= i < x && 0 <= j <= GRID_YSIZE ==> g[i, j] == GVAL_CLEAR
        invariant forall j :: 0 <= j < y ==> g[x, j] == GVAL_CLEAR
      {
        g[x, y] := GVAL_CLEAR;
      }
    }
    for x := 0 to GRID_XSIZE + 1
      invariant forall i, j :: 0 <= i <= GRID_XSIZE && 0 <= j <= GRID_YSIZE ==>
                  g[i, j] == (if i < x && (j == 0 || j == GRID_YSIZE) then GVAL_BORDER else GVAL_CLEAR)
    {
      g[x, 0] := GVAL_BORDER;
      g[x, GRID_YSIZE] := GVAL_BORDER;
    }
    for y := 0 to GRID_YSIZE + 1
      invariant forall i, j :: 0 <= i <= GRID_XSIZE && 0 <= j <= GRID_YSIZE ==>
                  g[i, j] == (if j == 0 || j == GRID_YSIZE || ((i == 0 || i == GRID_XSIZE) && j < y)
                              then GVAL_BORDER else GVAL_CLEAR)
    {
      g[0, y] := GVAL_BORDER;
      g[GRID_XSIZE, y] := GVAL_BORDER;
    }
  }

  /** The game-wide state shared by all sprites: the occupancy grid and the
      cached location of the snack, if one is on the grid. */
  class GameBox {
    const grid: array2<int>
    var snackLocation: Option<Cell>

    constructor ()
      ensures HasGridShape(grid) && fresh(grid)
      ensures IsInitialGrid(grid)
      ensures snackLocation == None
    {
      grid := new int[GRID_XSIZE + 1, GRID_YSIZE + 1];
      snackLocation := None;
      new;
      InitGrid(grid);
    }

    /** grid_reset: back to the initial layout, with no snack. */
    method GridReset()
      requires HasGridShape(grid)
      modifies this, grid
      ensures IsInitialGrid(grid)
      ensures snackLocation == None
    {
      InitGrid(grid);
      snackLocation := None;
    }

    /** grid_upval: add v to the counter of (x, y) and no other; adding a snack
        weight records the snack there, taking one away forgets it. */
    method GridUpval(x: int, y: int, v: int)
      requires HasGridShape(grid) && InGrid((x, y))
      modifies this, grid
      ensures forall i, j :: 0 <= i <= GRID_XSIZE && 0 <= j <= GRID_YSIZE ==>
                grid[i, j] == old(grid[i, j]) + (if (i, j) == (x, y) then v else 0)
      ensures snackLocation == (if v == GVAL_SNACK then Some((x, y))
                                else if v == -GVAL_SNACK then None
                                else old(snackLocation))
    {
      grid[x, y] := grid[x, y] + v;
      if v == GVAL_SNACK {
        snackLocation := Some((x, y));
      } else if v == -GVAL_SNACK {
        snackLocation := None;
      }
    }
  }
}
