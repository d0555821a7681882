/** The sprites that live on the grid: the snack and the players (human or
    computer), with placement, growth, movement and status classification. */
module Sprites {
  import opened Grid
  import opened Steering

  datatype Status = Clear | Chomp | Collision

  /** update_status's thresholds on the counter of the head cell: between a
      player and a snack weight, or two players and a snack, is a collision;
      exactly a player and a snack is a chomp; anything else is clear. */
  function Classify(v: int): (s: Status)
    ensures s == Collision <==> (1 < v < 10 || v == 12)
    ensures s == Chomp <==> v == 11
    ensures s == Clear <==> (v <= 1 || v == 10 || v >= 13)
  {
    if (v > GVAL_PLAYER && v < GVAL_SNACK) || v == GVAL_PLAYER + GVAL_PLAYER + GVAL_SNACK then
      Collision
    else if v == GVAL_PLAYER + GVAL_SNACK then
      Chomp
    else
      Clear
  }

  /** Classify read in terms of who shares the head cell: the player's own head,
      `others` further body segments (its own or the opponent's), possibly the
      wall and possibly the snack. Alone is clear; alone with the snack is a
      chomp; one wall or segment besides the head is a collision, with or
      without the snack beside them. Because only the sum is compared, large
      stacks without a snack are read otherwise: nine or twelve and more
      co-occupants read as clear, ten as a chomp and eleven as a collision. */
  lemma ClassifyOccupants(wall: bool, others: nat, snack: bool)
    ensures var n := (if wall then GVAL_BORDER else 0) + others;
            var v := n + GVAL_PLAYER + (if snack then GVAL_SNACK else 0);
            && (Classify(v) == Chomp <==> (snack && n == 0) || (!snack && n == 10))
            && (Classify(v) == Collision <==> (snack && n == 1) || (!snack && (1 <= n <= 8 || n == 11)))
            && (Classify(v) == Clear <==> (snack && n >= 2) || (!snack && (n == 0 || n == 9 || n >= 12)))
  {
  }

  /** The total player weight a trail puts on cell c: one per trail entry there. */
  ghost function Weight(t: seq<Cell>, c: Cell): int {
    GVAL_PLAYER * multiset(t)[c]
  }

  /** k copies of cell c, as grow appends them. */
  function Copies(c: Cell, k: nat): (s: seq<Cell>)
    ensures |s| == k && forall i :: 0 <= i < k ==> s[i] == c
  {
    seq(k, _ => c)
  }

  /** Growing a trail by k copies of h adds k entries on h and none elsewhere. */
  lemma {:induction false} CopiesCount(h: Cell, k: nat, c: Cell)
    ensures multiset(Copies(h, k))[c] == (if c == h then k else 0)
  {
    if k > 0 {
      assert Copies(h, k) == Copies(h, k - 1) + [h];
      CopiesCount(h, k - 1, c);
    }
  }

  /** The trail without its newest entry, the head. */
  function Body(t: seq<Cell>): (b: seq<Cell>)
    requires |t| > 0
    ensures t == b + [t[|t| - 1]]
  {
    t[..|t| - 1]
  }

  /** A snack of value 1 to 3 on a cell of the grid. */
  class Snack {
    const gbox: GameBox
    const gx: int
    const gy: int
    const value: nat

    predicate Valid() {
      HasGridShape(gbox.grid) &&
      2 <= gx <= GRID_XSIZE - 1 && 2 <= gy <= GRID_YSIZE - 1 &&
      1 <= value <= 3
    }

    /** Snack.__init__ with the random choices as parameters: the cell (drawn
        from 2..22 by 2..14 until it is clear) and the value (drawn from 1..3).
        Placing it adds the snack weight and records its location. */
    constructor (gbox: GameBox, gx: int, gy: int, value: int)
      requires HasGridShape(gbox.grid)
      requires 2 <= gx <= GRID_XSIZE - 1 && 2 <= gy <= GRID_YSIZE - 1
      requires gbox.grid[gx, gy] == GVAL_CLEAR
      requires 1 <= value <= 3
      modifies gbox, gbox.grid
      ensures Valid()
      ensures this.gbox == gbox && this.gx == gx && this.gy == gy && this.value == value
      ensures gbox.snackLocation == Some((gx, gy))
      ensures forall i, j :: 0 <= i <= GRID_XSIZE && 0 <= j <= GRID_YSIZE ==>
                gbox.grid[i, j] == old(gbox.grid[i, j]) + (if (i, j) == (gx, gy) then GVAL_SNACK else 0)
    {
      this.gbox := gbox;
      this.gx := gx;
      this.gy := gy;
      this.value := value;
      new;
      gbox.GridUpval(gx, gy, GVAL_SNACK);
    }

    /** clear: take the snack weight off its cell, which forgets the location. */
    method Clear()
      requires Valid()
      modifies gbox, gbox.grid
      ensures gbox.snackLocation == None
      ensures forall i, j :: 0 <= i <= GRID_XSIZE && 0 <= j <= GRID_YSIZE ==>
                gbox.grid[i, j] == old(gbox.grid[i, j]) - (if (i, j) == (gx, gy) then GVAL_SNACK else 0)
    {
      gbox.GridUpval(gx, gy, -GVAL_SNACK);
    }
  }

  /** A snake: its head (gx, gy), its direction (dx, dy), its trail of covered
      cells oldest first (the head is the last entry), its score, its win count
      and its status. A computer player chooses its own direction each move. */
  class Player {
    const gbox: GameBox
    const computer: bool
    var gx: int
    var gy: int
    var dx: int
    var dy: int
    var trail: seq<Cell>
    var points: int
    var wins: int
    var status: Status

    ghost predicate TrailInGrid()
      reads this`trail
    {
      forall i :: 0 <= i < |trail| ==> InGrid(trail[i])
    }

    ghost predicate Valid()
      reads this`gx, this`gy, this`trail
    {
      HasGridShape(gbox.grid) && TrailInGrid() &&
      |trail| > 0 && trail[|trail| - 1] == (gx, gy)
    }

    /** Player.__init__: no score, no wins, a fresh three-segment trail at the
        start cell. A computer player has no key bindings. */
    constructor (gbox: GameBox, gx: int, gy: int, computer: bool)
      requires HasGridShape(gbox.grid) && InGrid((gx, gy))
      modifies gbox, gbox.grid
      ensures Valid()
      ensures this.gbox == gbox && this.computer == computer
      ensures this.gx == gx && this.gy == gy && trail == [(gx, gy), (gx, gy), (gx, gy)]
      ensures (dx, dy) == (0, 0) && points == 0 && wins == 0 && status == Clear
      ensures gbox.snackLocation == old(gbox.snackLocation)
      ensures forall i, j :: 0 <= i <= GRID_XSIZE && 0 <= j <= GRID_YSIZE ==>
                gbox.grid[i, j] == old(gbox.grid[i, j]) + Weight(trail, (i, j))
    {
      this.gbox := gbox;
      this.computer := computer;
      this.gx, this.gy := gx, gy;
      dx, dy := 0, 0;
      trail := [];
      wins, points := 0, 0;
      status := Clear;
      new;
      SetHead(gx, gy);
    }

    /** GridSprite.place: move the sprite's position there and add its weight. */
    method Place(x: int, y: int)
      requires HasGridShape(gbox.grid) && InGrid((x, y))
      modifies this`gx, this`gy, gbox, gbox.grid
      ensures gx == x && gy == y
      ensures gbox.snackLocation == old(gbox.snackLocation)
      ensures forall i, j :: 0 <= i <= GRID_XSIZE && 0 <= j <= GRID_YSIZE ==>
                gbox.grid[i, j] == old(gbox.grid[i, j]) + (if (i, j) == (x, y) then GVAL_PLAYER else 0)
    {
      gx, gy := x, y;
      gbox.GridUpval(x, y, GVAL_PLAYER);
    }

    /** GridSprite.remove: subtract the sprite's weight from that cell. */
    method Remove(x: int, y: int)
      requires HasGridShape(gbox.grid) && InGrid((x, y))
      modifies gbox, gbox.grid
      ensures gbox.snackLocation == old(gbox.snackLocation)
      ensures forall i, j :: 0 <= i <= GRID_XSIZE && 0 <= j <= GRID_YSIZE ==>
                gbox.grid[i, j] == old(gbox.grid[i, j]) - (if (i, j) == (x, y) then GVAL_PLAYER else 0)
    {
      gbox.GridUpval(x, y, -GVAL_PLAYER);
    }

    /** Placing the sprite on a cell and removing it from the same cell again
        leaves every counter and the cached snack location as they were. */
    method PlaceThenRemove(x: int, y: int)
      requires HasGridShape(gbox.grid) && InGrid((x, y))
      modifies this`gx, this`gy, gbox, gbox.grid
      ensures gx == x && gy == y
      ensures gbox.snackLocation == old(gbox.snackLocation)
      ensures forall i, j :: 0 <= i <= GRID_XSIZE && 0 <= j <= GRID_YSIZE ==> gbox.grid[i, j] == old(gbox.grid[i, j])
    {
      Place(x, y);
      Remove(x, y);
    }

    /** set_head: restart the snake at (x, y) with a three-segment trail, all on
        that cell, which then carries three player weights. The old trail is
        dropped without touching the grid (the caller resets the grid first). */
    method SetHead(x: int, y: int)
      requires HasGridShape(gbox.grid) && InGrid((x, y))
      modifies this, gbox, gbox.grid
      ensures Valid()
      ensures gx == x && gy == y && trail == [(x, y), (x, y), (x, y)]
      ensures dx == old(dx) && dy == old(dy) && points == old(points) && wins == old(wins) && status == old(status)
      ensures gbox.snackLocation == old(gbox.snackLocation)
      ensures forall i, j :: 0 <= i <= GRID_XSIZE && 0 <= j <= GRID_YSIZE ==>
                gbox.grid[i, j] == old(gbox.grid[i, j]) + Weight(trail, (i, j))
    {
      Place(x, y);
      trail := [];
      Grow(2, 0);
      trail := trail + [(gx, gy)];
      assert trail == [(x, y), (x, y), (x, y)];
    }

    /** set_direction. */
    method SetDirection(x: int, y: int)
      modifies this`dx, this`dy
      ensures dx == x && dy == y
    {
      dx, dy := x, y;
    }

    /** grow: append `segments` copies of the head to the trail, adding a player
        weight to the head cell for each, and add `pts` to the score. */
    method Grow(segments: nat, pts: int)
      requires HasGridShape(gbox.grid) && InGrid((gx, gy)) && TrailInGrid()
      modifies this`gx, this`gy, this`trail, this`points, gbox, gbox.grid
      ensures gx == old(gx) && gy == old(gy)
      ensures TrailInGrid()
      ensures trail == old(trail) + Copies((gx, gy), segments)
      ensures points == old(points) + pts
      ensures gbox.snackLocation == old(gbox.snackLocation)
      ensures forall i, j :: 0 <= i <= GRID_XSIZE && 0 <= j <= GRID_YSIZE ==>
                gbox.grid[i, j] - old(gbox.grid[i, j]) ==
                (Weight(trail, (i, j)) - old(Weight(trail, (i, j))))
    {
      var k := 0;
      while k < segments
        invariant 0 <= k <= segments
        invariant gx == old(gx) && gy == old(gy) && points == old(points)
        invariant TrailInGrid()
        invariant trail == old(trail) + Copies((gx, gy), k)
        invariant gbox.snackLocation == old(gbox.snackLocation)
        invariant forall i, j :: 0 <= i <= GRID_XSIZE && 0 <= j <= GRID_YSIZE ==>
                    gbox.grid[i, j] == old(gbox.grid[i, j]) + (if (i, j) == (gx, gy) then GVAL_PLAYER * k else 0)
        invariant forall i, j :: 0 <= i <= GRID_XSIZE && 0 <= j <= GRID_YSIZE ==>
                    gbox.grid[i, j] - old(gbox.grid[i, j]) ==
                    (Weight(trail, (i, j)) - old(Weight(trail, (i, j))))
      {
        trail := trail + [(gx, gy)];
        Place(gx, gy);
        k := k + 1;
        assert trail == old(trail) + Copies((gx, gy), k);
      }
      points := points + pts;
    }

    /** move: standing still does nothing; otherwise the head steps by (dx, dy)
        and joins the end of the trail, and the oldest trail cell leaves it,
        losing one player weight, so the length of the trail is kept. */
    method Move()
      requires Valid()
      requires (dx, dy) != (0, 0) ==> InGrid((gx + dx, gy + dy))
      modifies this`gx, this`gy, this`trail, gbox, gbox.grid
      ensures Valid()
      ensures |trail| == old(|trail|)
      ensures old(dx == 0 && dy == 0) ==> gx == old(gx) && gy == old(gy) && trail == old(trail)
      ensures old(dx != 0 || dy != 0) ==>
                gx == old(gx + dx) && gy == old(gy + dy) && trail == old(trail[1..]) + [(gx, gy)]
      ensures gbox.snackLocation == old(gbox.snackLocation)
      ensures forall i, j :: 0 <= i <= GRID_XSIZE && 0 <= j <= GRID_YSIZE ==>
                gbox.grid[i, j] - old(gbox.grid[i, j]) ==
                (Weight(trail, (i, j)) - old(Weight(trail, (i, j))))
    {
      if dx == 0 && dy == 0 {
        return;
      }
      Place(gx + dx, gy + dy);
      trail := trail + [(gx, gy)];
      var tail := trail[0];
      trail := trail[1..];
      Remove(tail.0, tail.1);
      assert old(trail) == [tail] + old(trail)[1..];
    }

    /** update_status: classify the counter of the head cell. */
    method UpdateStatus()
      requires HasGridShape(gbox.grid) && InGrid((gx, gy))
      modifies this`status
      ensures status == Classify(gbox.grid[gx, gy])
    {
      status := Classify(gbox.grid[gx, gy]);
    }

    /** ComputerPlayer.move: choose the direction by the steering rule, then
        move as any player does. */
    method ComputerMove(ghost cells: Cell -> int)
      requires Valid() && Mirrors(gbox.grid, cells) && Interior((gx, gy)) && IsUnit((dx, dy))
      requires gbox.snackLocation.Some? ==> gbox.snackLocation.value != (gx, gy)
      modifies this`gx, this`gy, this`dx, this`dy, this`trail, gbox, gbox.grid
      ensures Valid()
      ensures IsUnit((dx, dy))
      ensures SteerSpec(cells, old(gbox.snackLocation), old((gx, gy)), old((dx, dy)), (dx, dy))
      ensures gx == old(gx) + dx && gy == old(gy) + dy
      ensures trail == old(trail[1..]) + [(gx, gy)]
      ensures gbox.snackLocation == old(gbox.snackLocation)
      ensures forall i, j :: 0 <= i <= GRID_XSIZE && 0 <= j <= GRID_YSIZE ==>
                gbox.grid[i, j] - old(gbox.grid[i, j]) ==
                (Weight(trail, (i, j)) - old(Weight(trail, (i, j))))
    {
      var r := ChooseDirection(gbox.grid, cells, gbox.snackLocation, (gx, gy), (dx, dy));
      SetDirection(r.0, r.1);
      Move();
    }

    /** One move of this player in a tick: a human player moves in its current
        direction; a computer player steers first. `ok` is false where the
        source's table lookups would fail (a computer player that has no unit
        direction, or whose head sits on the snack), and then nothing changes. */
    method Step(ghost cells: Cell -> int) returns (ok: bool)
      requires Valid() && Interior((gx, gy)) && IsDirection((dx, dy))
      requires computer ==> Mirrors(gbox.grid, cells)
      modifies this`gx, this`gy, this`dx, this`dy, this`trail, gbox, gbox.grid
      ensures ok <==> !computer || (IsUnit(old((dx, dy))) && old(gbox.snackLocation) != Some(old((gx, gy))))
      ensures !ok ==> gx == old(gx) && gy == old(gy) && dx == old(dx) && dy == old(dy) && trail == old(trail)
      ensures !ok ==> unchanged(gbox, gbox.grid)
      ensures Valid()
      ensures IsDirection((dx, dy))
      ensures |trail| == old(|trail|)
      ensures ok && !computer && old(dx == 0 && dy == 0) ==> trail == old(trail)
      ensures ok && !computer && old(dx != 0 || dy != 0) ==> trail == old(trail)[1..] + [(gx, gy)]
      ensures ok && computer ==> trail == old(trail)[1..] + [(gx, gy)]
      ensures ok && !computer ==> dx == old(dx) && dy == old(dy)
      ensures ok && computer ==> IsUnit((dx, dy))
      ensures ok && computer ==>
                SteerSpec(cells, old(gbox.snackLocation), old((gx, gy)), old((dx, dy)), (dx, dy))
      ensures ok ==> gx == old(gx) + dx && gy == old(gy) + dy
      ensures gbox.snackLocation == old(gbox.snackLocation)
      ensures forall i, j :: 0 <= i <= GRID_XSIZE && 0 <= j <= GRID_YSIZE ==>
                gbox.grid[i, j] - old(gbox.grid[i, j]) ==
                (Weight(trail, (i, j)) - old(Weight(trail, (i, j))))
    {
      if !computer {
        Move();
        return true;
      }
      if !IsUnit((dx, dy)) || gbox.snackLocation == Some((gx, gy)) {
        return false;
      }
      ComputerMove(cells);
      ok := true;
    }
  }
}
