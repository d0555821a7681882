/** The computer player's steering: the sign map, the turn tables and the
    one-step decision procedure of ComputerPlayer.move. */
module Steering {
  import opened Grid

  function Abs(x: int): nat {
    if x < 0 then -x else x
  }

  /** dir_map: collapse a distance to its sign, 10 to 1 and -10 to -1. */
  function DirMap(x: int): int {
    if x == 0 then 0 else if x > 0 then 1 else -1
  }

  /** The source computes dir_map as abs(x) // x: that quotient is the sign.
      Floor division and Euclidean division agree on these exact quotients. */
  lemma DirMapQuotient(x: int)
    ensures DirMap(x) == (if x == 0 then 0 else Abs(x) / x)
  {
  }

  function Reverse(d: Vec): Vec {
    (-d.0, -d.1)
  }

  function Dot(a: Vec, b: Vec): int {
    a.0 * b.0 + a.1 * b.1
  }

  const UNITS: set<Vec> := {UP, DOWN, LEFT, RIGHT}

  /** The eight compass sectors a snack can lie in, seen from the head. */
  const SECTORS: set<Vec> := {(0, -1), (1, -1), (1, 0), (1, 1), (0, 1), (-1, 1), (-1, 0), (-1, -1)}

  const RIGHT_TURN: map<Vec, Vec> := map[UP := RIGHT, RIGHT := DOWN, DOWN := LEFT, LEFT := UP]
  const LEFT_TURN: map<Vec, Vec> := map[UP := LEFT, LEFT := DOWN, DOWN := RIGHT, RIGHT := UP]

  /** Sector of the snack, then current direction, to the direction to head. */
  const SNACK_TURN: map<Vec, map<Vec, Vec>> := map[
    (0, -1)  := map[UP := UP,    DOWN := LEFT,  LEFT := UP,    RIGHT := UP],
    (1, -1)  := map[UP := UP,    DOWN := RIGHT, LEFT := UP,    RIGHT := RIGHT],
    (1, 0)   := map[UP := RIGHT, DOWN := RIGHT, LEFT := UP,    RIGHT := RIGHT],
    (1, 1)   := map[UP := RIGHT, DOWN := RIGHT, LEFT := DOWN,  RIGHT := RIGHT],
    (0, 1)   := map[UP := RIGHT, DOWN := DOWN,  LEFT := DOWN,  RIGHT := DOWN],
    (-1, 1)  := map[UP := LEFT,  DOWN := DOWN,  LEFT := LEFT,  RIGHT := DOWN],
    (-1, 0)  := map[UP := LEFT,  DOWN := LEFT,  LEFT := LEFT,  RIGHT := DOWN],
    (-1, -1) := map[UP := UP,    DOWN := LEFT,  LEFT := LEFT,  RIGHT := UP]
  ]

  /** RIGHT_TURN and LEFT_TURN are defined exactly on the four unit directions,
      turn a quarter clockwise and anticlockwise on screen, and undo each other. */
  lemma TurnTables(d: Vec)
    requires IsUnit(d)
    ensures RIGHT_TURN.Keys == UNITS && LEFT_TURN.Keys == UNITS
    ensures d in RIGHT_TURN && d in LEFT_TURN
    ensures RIGHT_TURN[d] == (-d.1, d.0) && LEFT_TURN[d] == (d.1, -d.0)
    ensures IsUnit(RIGHT_TURN[d]) && IsUnit(LEFT_TURN[d])
    ensures LEFT_TURN[RIGHT_TURN[d]] == d && RIGHT_TURN[LEFT_TURN[d]] == d
  {
  }

  /** SNACK_TURN answers exactly the 8 sectors times the 4 unit directions. */
  lemma SnackTurnTotal(s: Vec, d: Vec)
    ensures SNACK_TURN.Keys == SECTORS
    ensures s in SNACK_TURN ==> SNACK_TURN[s].Keys == UNITS
    ensures (s in SNACK_TURN && d in SNACK_TURN[s]) <==> (s != (0, 0) && -1 <= s.0 <= 1 && -1 <= s.1 <= 1 && IsUnit(d))
  {
  }

  /** Every answer of SNACK_TURN is a unit direction that never reverses the
      player; with the snack straight ahead it keeps going; otherwise it makes
      progress towards the snack on some axis, except when the snack lies
      straight behind, where it makes a quarter turn. */
  lemma SnackTurnSteersTowardsSnack(s: Vec, d: Vec)
    requires s in SNACK_TURN && d in SNACK_TURN[s]
    ensures IsUnit(SNACK_TURN[s][d])
    ensures SNACK_TURN[s][d] != Reverse(d)
    ensures s == d ==> SNACK_TURN[s][d] == d
    ensures s != Reverse(d) ==> Dot(SNACK_TURN[s][d], s) > 0
    ensures s == Reverse(d) ==> Dot(SNACK_TURN[s][d], d) == 0
  {
  }

  /** The direction the computer heads for before checking for danger: towards
      the snack's sector if there is a snack, otherwise straight on. */
  function Tentative(snack: Option<Cell>, head: Cell, dir: Vec): (t: Vec)
    requires IsUnit(dir)
    requires snack.Some? ==> snack.value != head
    ensures IsUnit(t)
    ensures snack.None? ==> t == dir
    ensures t != Reverse(dir)
  {
    if snack.Some? then
      var s := (DirMap(snack.value.0 - head.0), DirMap(snack.value.1 - head.1));
      SnackTurnTotal(s, dir);
      SnackTurnSteersTowardsSnack(s, dir);
      SNACK_TURN[s][dir]
    else
      dir
  }

  /** A cell the computer would crash into: occupied, but not by a snack. */
  predicate Hazard(v: int) {
    v != GVAL_CLEAR && v < GVAL_SNACK
  }

  /** The options tried when the tentative direction is a hazard, in order. */
  function TurnOptions(dir: Vec): (opts: seq<Vec>)
    requires IsUnit(dir)
    ensures |opts| == 3 && opts[0] == dir
    ensures opts[1] == (-dir.1, dir.0) && opts[2] == (dir.1, -dir.0)
    ensures forall i :: 0 <= i < 3 ==> IsUnit(opts[i])
  {
    TurnTables(dir);
    [dir, RIGHT_TURN[dir], LEFT_TURN[dir]]
  }

  /** Counter of the cell one step from the head in direction d. */
  function Ahead(g: Cell -> int, head: Cell, d: Vec): int
    requires Interior(head) && IsUnit(d)
  {
    g((head.0 + d.0, head.1 + d.1))
  }

  /** The hazard check of ComputerPlayer.move for a tentative direction t:
      keep t unless its cell is a hazard; then take the first of straight on,
      right turn, left turn whose cell is clear; and when none is clear, the
      left turn (the last value the search left behind). */
  ghost predicate AvoidSpec(g: Cell -> int, head: Cell, dir: Vec, t: Vec, r: Vec)
    requires Interior(head) && IsUnit(dir) && IsUnit(t)
  {
    var opts := TurnOptions(dir);
    if !Hazard(Ahead(g, head, t)) then r == t
    else if Ahead(g, head, opts[0]) == GVAL_CLEAR then r == opts[0]
    else if Ahead(g, head, opts[1]) == GVAL_CLEAR then r == opts[1]
    else r == opts[2]
  }

  /** What ComputerPlayer.move decides: a unit direction, the one the hazard
      check gives for the tentative direction t. */
  ghost predicate SteerSpec(g: Cell -> int, snack: Option<Cell>, head: Cell, dir: Vec, r: Vec)
    requires Interior(head) && IsUnit(dir)
    requires snack.Some? ==> snack.value != head
  {
    && IsUnit(r)
    && forall t :: t == Tentative(snack, head, dir) ==> AvoidSpec(g, head, dir, t, r)
  }

  /** The search loop of ComputerPlayer.move; `cells` is the grid's counters
      as a value, on which the search is specified. */
  method AvoidHazard(g: array2<int>, ghost cells: Cell -> int, head: Cell, dir: Vec, t: Vec) returns (r: Vec)
    requires HasGridShape(g) && Mirrors(g, cells) && Interior(head) && IsUnit(dir) && IsUnit(t)
    ensures IsUnit(r)
    ensures AvoidSpec(cells, head, dir, t, r)
  {
    var opts := TurnOptions(dir);
    r := t;
    var infront := g[head.0 + r.0, head.1 + r.1];
    assert infront == Ahead(cells, head, t);
    if Hazard(infront) {
      var i := 0;
      while i < |opts|
        invariant 0 <= i <= |opts|
        invariant forall j :: 0 <= j < i ==> Ahead(cells, head, opts[j]) != GVAL_CLEAR
        invariant IsUnit(r)
        invariant i > 0 ==> r == opts[i - 1]
      {
        r := opts[i];
        assert g[head.0 + r.0, head.1 + r.1] == Ahead(cells, head, r);
        if g[head.0 + r.0, head.1 + r.1] == GVAL_CLEAR {
          break;
        }
        i := i + 1;
      }
    }
  }

  /** The decision procedure of ComputerPlayer.move, before the move itself. */
  method ChooseDirection(g: array2<int>, ghost cells: Cell -> int, snack: Option<Cell>, head: Cell, dir: Vec) returns (r: Vec)
    requires HasGridShape(g) && Mirrors(g, cells) && Interior(head) && IsUnit(dir)
    requires snack.Some? ==> snack.value != head
    ensures IsUnit(r)
    ensures SteerSpec(cells, snack, head, dir, r)
  {
    r := AvoidHazard(g, cells, head, dir, Tentative(snack, head, dir));
  }

  /** Given the grid, the snack location, the head and the direction, the
      decision is unique. */
  lemma SteerDeterministic(g: Cell -> int, snack: Option<Cell>, head: Cell, dir: Vec, r1: Vec, r2: Vec)
    requires Interior(head) && IsUnit(dir)
    requires snack.Some? ==> snack.value != head
    requires SteerSpec(g, snack, head, dir, r1) && SteerSpec(g, snack, head, dir, r2)
    ensures r1 == r2
  {
    var t := Tentative(snack, head, dir);
    assert AvoidSpec(g, head, dir, t, r1) && AvoidSpec(g, head, dir, t, r2);
  }

  /** The computer walks into a hazard only when straight on, the right turn
      and the left turn are all not clear. */
  lemma SteerAvoidsHazard(g: Cell -> int, snack: Option<Cell>, head: Cell, dir: Vec, r: Vec)
    requires Interior(head) && IsUnit(dir)
    requires snack.Some? ==> snack.value != head
    requires SteerSpec(g, snack, head, dir, r)
    requires Hazard(Ahead(g, head, r))
    ensures forall i :: 0 <= i < 3 ==> Ahead(g, head, TurnOptions(dir)[i]) != GVAL_CLEAR
    ensures r == LEFT_TURN[dir]
  {
    assert AvoidSpec(g, head, dir, Tentative(snack, head, dir), r);
    TurnTables(dir);
  }

  /** With straight on blocked by a wall or a body and the right turn clear, the
      computer turns right. */
  lemma SteerTurnsRight(g: Cell -> int, head: Cell, dir: Vec, r: Vec)
    requires Interior(head) && IsUnit(dir)
    requires SteerSpec(g, None, head, dir, r)
    requires Hazard(Ahead(g, head, dir))
    requires Ahead(g, head, TurnOptions(dir)[1]) == GVAL_CLEAR
    ensures r == RIGHT_TURN[dir]
  {
    assert AvoidSpec(g, head, dir, dir, r);
    TurnTables(dir);
  }
}
