/** One round of play: the occupancy invariant that ties the grid to the two
    trails and the snack, the reset between rounds, and the per-tick rules. */
module Play {
  import opened Grid
  import opened Steering
  import opened Sprites

  /** How a tick ends: play goes on, or the round is over and records which
      players crashed. */
  datatype Outcome = Running | GameOver(p1Crash: bool, p2Crash: bool)

  function SnackCell(snack: Snack?): Option<Cell> {
    if snack == null then None else Some((snack.gx, snack.gy))
  }

  /** The counter cell c must hold: the wall, one player weight per entry of
      either trail on c, and the snack weight if the snack is there. */
  ghost function Occupancy(c: Cell, t1: seq<Cell>, t2: seq<Cell>, snack: Option<Cell>): int {
    BorderValue(c) + Weight(t1, c) + Weight(t2, c) + (if snack == Some(c) then GVAL_SNACK else 0)
  }

  /** The counters Occupancy prescribes for the whole grid, as a value. */
  ghost function OccGrid(t1: seq<Cell>, t2: seq<Cell>, snack: Option<Cell>): Cell -> int {
    c => Occupancy(c, t1, t2, snack)
  }

  /** The counter of cell (x, y) is exactly the sum of what covers the cell. */
  ghost predicate Accounted(gbox: GameBox, p1: Player, p2: Player, snack: Snack?, x: int, y: int)
    requires HasGridShape(gbox.grid) && InGrid((x, y))
    reads gbox.grid, p1`trail, p2`trail
  {
    gbox.grid[x, y] == Occupancy((x, y), p1.trail, p2.trail, SnackCell(snack))
  }

  /** The game state is consistent: two distinct players and the snack share
      the grid, every counter is accounted for, and the cached snack location
      is the snack's cell. */
  ghost predicate Consistent(gbox: GameBox, p1: Player, p2: Player, snack: Snack?)
    reads gbox`snackLocation, gbox.grid, p1`gx, p1`gy, p1`trail, p2`gx, p2`gy, p2`trail
  {
    && p1 != p2 && p1.gbox == gbox && p2.gbox == gbox
    && p1.Valid() && p2.Valid()
    && (snack != null ==> snack.gbox == gbox && snack.Valid())
    && gbox.snackLocation == SnackCell(snack)
    && forall x, y :: 0 <= x <= GRID_XSIZE && 0 <= y <= GRID_YSIZE ==> Accounted(gbox, p1, p2, snack, x, y)
  }

  /** In a consistent state the grid holds exactly the counters Occupancy
      prescribes, so steering reads the trails and the snack. */
  lemma ConsistentMirrors(gbox: GameBox, p1: Player, p2: Player, snack: Snack?)
    requires Consistent(gbox, p1, p2, snack)
    ensures Mirrors(gbox.grid, OccGrid(p1.trail, p2.trail, SnackCell(snack)))
  {
    forall x, y | 0 <= x <= GRID_XSIZE && 0 <= y <= GRID_YSIZE
      ensures OccGrid(p1.trail, p2.trail, SnackCell(snack))((x, y)) == gbox.grid[x, y]
    {
      assert Accounted(gbox, p1, p2, snack, x, y);
    }
  }

  lemma ConsistentSwap(gbox: GameBox, p1: Player, p2: Player, snack: Snack?)
    requires Consistent(gbox, p1, p2, snack)
    ensures Consistent(gbox, p2, p1, snack)
  {
    forall x, y | 0 <= x <= GRID_XSIZE && 0 <= y <= GRID_YSIZE
      ensures Accounted(gbox, p2, p1, snack, x, y)
    {
      assert Accounted(gbox, p1, p2, snack, x, y);
    }
  }

  /** The most trail entries a cell can carry during play: a head that has
      just eaten the most valuable snack, 1 plus 3. */
  const MAX_STACK := 4

  predicate AllInterior(t: seq<Cell>) {
    forall i :: 0 <= i < |t| ==> Interior(t[i])
  }

  /** How many entries of the two trails lie on c. */
  ghost function Stack(t1: seq<Cell>, t2: seq<Cell>, c: Cell): nat {
    multiset(t1)[c] + multiset(t2)[c]
  }

  /** No cell carries more than MAX_STACK entries of the two trails together. */
  ghost predicate StackBound(t1: seq<Cell>, t2: seq<Cell>) {
    forall c: Cell :: Stack(t1, t2, c) <= MAX_STACK
  }

  /** The state at the start of every tick of a round: consistent, both trails
      inside the wall, no trail entry under the snack, stacks bounded, and a
      computer player holding one of the four directions. */
  ghost predicate InPlay(gbox: GameBox, p1: Player, p2: Player, snack: Snack?)
    reads gbox`snackLocation, gbox.grid, p1`gx, p1`gy, p1`trail, p2`gx, p2`gy, p2`trail
    reads p1`dx, p1`dy, p2`dx, p2`dy
  {
    && Consistent(gbox, p1, p2, snack)
    && AllInterior(p1.trail) && AllInterior(p2.trail)
    && StackBound(p1.trail, p2.trail)
    && (snack != null ==> (snack.gx, snack.gy) !in p1.trail && (snack.gx, snack.gy) !in p2.trail)
    && (p1.computer ==> IsUnit((p1.dx, p1.dy))) && (p2.computer ==> IsUnit((p2.dx, p2.dy)))
  }

  /** The state after both players moved and before either is classified: the
      same as InPlay, but for the trails without their heads. */
  ghost predicate Moved(gbox: GameBox, p1: Player, p2: Player, snack: Snack?)
    reads gbox`snackLocation, gbox.grid, p1`gx, p1`gy, p1`trail, p2`gx, p2`gy, p2`trail
  {
    && Consistent(gbox, p1, p2, snack)
    && AllInterior(Body(p1.trail)) && AllInterior(Body(p2.trail))
    && StackBound(Body(p1.trail), Body(p2.trail))
    && (snack != null ==> (snack.gx, snack.gy) !in Body(p1.trail) && (snack.gx, snack.gy) !in Body(p2.trail))
  }

  lemma MovedSwap(gbox: GameBox, p1: Player, p2: Player, snack: Snack?)
    requires Moved(gbox, p1, p2, snack)
    ensures Moved(gbox, p2, p1, snack)
  {
    ConsistentSwap(gbox, p1, p2, snack);
    forall c: Cell
      ensures Stack(Body(p2.trail), Body(p1.trail), c) <= MAX_STACK
    {
      assert Stack(Body(p1.trail), Body(p2.trail), c) <= MAX_STACK;
    }
  }

  /** p's head is the only trail entry on its cell. */
  ghost predicate Alone(p: Player, q: Player)
    reads p`gx, p`gy, p`trail, q`gx, q`gy, q`trail
    requires |p.trail| > 0 && |q.trail| > 0
  {
    var h := (p.gx, p.gy);
    multiset(Body(p.trail))[h] == 0 && multiset(Body(q.trail))[h] == 0 && (q.gx, q.gy) != h
  }

  /** After a move, the trail without its head holds nothing the trail before
      the move did not hold. */
  lemma MovedTrail(t: seq<Cell>, u: seq<Cell>, h: Cell)
    requires |t| > 0
    requires u == t || u == t[1..] + [h]
    ensures |u| > 0
    ensures multiset(Body(u)) <= multiset(t)
    ensures forall c :: c in Body(u) ==> c in t
  {
    if u == t {
      assert t == Body(t) + [t[|t| - 1]];
    } else {
      assert Body(u) == t[1..];
      assert t == [t[0]] + t[1..];
    }
  }

  /** Both moves together keep the tick-start facts for the trails without
      their heads. */
  lemma MovesKeep(t1: seq<Cell>, t2: seq<Cell>, u1: seq<Cell>, u2: seq<Cell>, h1: Cell, h2: Cell, s: Option<Cell>)
    requires |t1| > 0 && |t2| > 0
    requires u1 == t1 || u1 == t1[1..] + [h1]
    requires u2 == t2 || u2 == t2[1..] + [h2]
    requires AllInterior(t1) && AllInterior(t2) && StackBound(t1, t2)
    requires s.Some? ==> s.value !in t1 && s.value !in t2
    ensures |u1| > 0 && |u2| > 0
    ensures AllInterior(Body(u1)) && AllInterior(Body(u2)) && StackBound(Body(u1), Body(u2))
    ensures s.Some? ==> s.value !in Body(u1) && s.value !in Body(u2)
  {
    MovedTrail(t1, u1, h1);
    MovedTrail(t2, u2, h2);
    forall c: Cell
      ensures Stack(Body(u1), Body(u2), c) <= MAX_STACK
    {
      assert Stack(t1, t2, c) <= MAX_STACK;
    }
    forall i | 0 <= i < |Body(u1)|
      ensures Interior(Body(u1)[i])
    {
      assert Body(u1)[i] in Body(u1);
    }
    forall i | 0 <= i < |Body(u2)|
      ensures Interior(Body(u2)[i])
    {
      assert Body(u2)[i] in Body(u2);
    }
  }

  /** What a moved head meets. On the wall it crashes: only heads are on the
      border, so the counter is 2 or 3. Elsewhere it stays clear or chomps only
      when it is alone on its cell, and it chomps exactly when the snack is
      there: bodies never reach the snack cell, so the counter is 11 or 12 on
      the snack and at most 6 elsewhere. */
  lemma HeadVerdict(gbox: GameBox, p: Player, q: Player, snack: Snack?)
    requires Moved(gbox, p, q, snack)
    ensures var v := gbox.grid[p.gx, p.gy];
              && (Classify(v) != Collision ==> Interior((p.gx, p.gy)) && Alone(p, q))
              && (Classify(v) == Chomp <==> SnackCell(snack) == Some((p.gx, p.gy)) && Alone(p, q))
  {
    var h := (p.gx, p.gy);
    var bp, bq := Body(p.trail), Body(q.trail);
    assert Accounted(gbox, p, q, snack, h.0, h.1);
    assert multiset(p.trail) == multiset(bp) + multiset{h} by {
      assert p.trail == bp + [h];
    }
    assert multiset(q.trail) == multiset(bq) + multiset{(q.gx, q.gy)} by {
      assert q.trail == bq + [(q.gx, q.gy)];
    }
    assert Stack(bp, bq, h) <= MAX_STACK;
    if !Interior(h) {
      assert h !in bp && h !in bq;
    }
    if SnackCell(snack) == Some(h) {
      assert h !in bp && h !in bq;
    }
  }

  /** Growing the heads that survived keeps the tick-start invariant: a head
      that was alone on an inner cell gets at most 3 more entries. */
  lemma Settle(t1: seq<Cell>, t2: seq<Cell>, h1: Cell, h2: Cell, k1: nat, k2: nat, s: Option<Cell>)
    requires |t1| > 0 && |t2| > 0 && t1[|t1| - 1] == h1 && t2[|t2| - 1] == h2
    requires AllInterior(Body(t1)) && AllInterior(Body(t2)) && Interior(h1) && Interior(h2)
    requires StackBound(Body(t1), Body(t2))
    requires multiset(Body(t1))[h1] == 0 && multiset(Body(t2))[h1] == 0
    requires multiset(Body(t1))[h2] == 0 && multiset(Body(t2))[h2] == 0 && h1 != h2
    requires k1 < MAX_STACK && k2 < MAX_STACK
    requires s.Some? ==> s.value !in Body(t1) && s.value !in Body(t2) && s.value != h1 && s.value != h2
    ensures AllInterior(t1 + Copies(h1, k1)) && AllInterior(t2 + Copies(h2, k2))
    ensures StackBound(t1 + Copies(h1, k1), t2 + Copies(h2, k2))
    ensures s.Some? ==> s.value !in t1 + Copies(h1, k1) && s.value !in t2 + Copies(h2, k2)
  {
    var u1, u2 := t1 + Copies(h1, k1), t2 + Copies(h2, k2);
    assert u1 == Body(t1) + [h1] + Copies(h1, k1);
    assert u2 == Body(t2) + [h2] + Copies(h2, k2);
    forall c: Cell
      ensures Stack(u1, u2, c) <= MAX_STACK
    {
      CopiesCount(h1, k1, c);
      CopiesCount(h2, k2, c);
      assert Stack(Body(t1), Body(t2), c) <= MAX_STACK;
    }
  }

  /** The top of every round: the players, back at their start cells with
      three entries each and no snack on the grid, are set off towards each
      other, which is a tick-start state. */
  method SetOff(gbox: GameBox, p1: Player, p2: Player)
    requires Consistent(gbox, p1, p2, null)
    requires p1.trail == [(1, 4), (1, 4), (1, 4)] && p2.trail == [(22, 4), (22, 4), (22, 4)]
    modifies p1`dx, p1`dy, p2`dx, p2`dy
    ensures InPlay(gbox, p1, p2, null)
    ensures (p1.dx, p1.dy) == RIGHT && (p2.dx, p2.dy) == LEFT
  {
    p1.SetDirection(1, 0);
    p2.SetDirection(-1, 0);
    forall c: Cell
      ensures Stack(p1.trail, p2.trail, c) <= MAX_STACK
    {
    }
  }

  /** The start of a round: the grid is reset with no snack, the players
      restart at their fixed cells facing each other. */
  method StartRound(gbox: GameBox, p1: Player, p2: Player)
    requires p1 != p2 && p1.gbox == gbox && p2.gbox == gbox && HasGridShape(gbox.grid)
    modifies gbox, gbox.grid, p1, p2
    ensures InPlay(gbox, p1, p2, null)
    ensures (p1.gx, p1.gy) == (1, 4) && p1.trail == [(1, 4), (1, 4), (1, 4)] && (p1.dx, p1.dy) == RIGHT
    ensures (p2.gx, p2.gy) == (22, 4) && p2.trail == [(22, 4), (22, 4), (22, 4)] && (p2.dx, p2.dy) == LEFT
    ensures p1.points == old(p1.points) && p1.wins == old(p1.wins)
    ensures p2.points == old(p2.points) && p2.wins == old(p2.wins)
  {
    gbox.GridReset();
    p1.SetHead(1, 4);
    p2.SetHead(22, 4);
    SetOff(gbox, p1, p2);
  }

  /** A snack may be spawned at (x, y) with value v: the cell is one the spawn
      draws from and is clear, and the value is one it draws. */
  predicate SpawnAllowed(gbox: GameBox, x: int, y: int, v: int)
    requires HasGridShape(gbox.grid)
    reads gbox.grid
  {
    2 <= x <= GRID_XSIZE - 1 && 2 <= y <= GRID_YSIZE - 1 && gbox.grid[x, y] == GVAL_CLEAR && 1 <= v <= 3
  }

  /** The random snack event with its draws as parameters: when the event fires
      a missing snack is spawned at (x, y) with value v, and a present one is
      cleared if `despawn` also fires. */
  method SnackEvent(gbox: GameBox, p1: Player, p2: Player, snack: Snack?,
                    event: bool, despawn: bool, x: int, y: int, v: int) returns (next: Snack?)
    requires InPlay(gbox, p1, p2, snack)
    requires event && snack == null ==> SpawnAllowed(gbox, x, y, v)
    modifies gbox, gbox.grid
    ensures InPlay(gbox, p1, p2, next)
    ensures !event ==> next == snack
    ensures event && snack != null ==> next == (if despawn then null else snack)
    ensures event && snack == null ==> next != null && SnackCell(next) == Some((x, y)) && next.value == v
  {
    next := snack;
    if event {
      if next != null {
        if despawn {
          next.Clear();
          next := null;
        }
      } else {
        assert Accounted(gbox, p1, p2, snack, x, y);
        next := new Snack(gbox, x, y, v);
      }
    }
    forall i, j | 0 <= i <= GRID_XSIZE && 0 <= j <= GRID_YSIZE
      ensures Accounted(gbox, p1, p2, next, i, j)
    {
      assert old(Accounted(gbox, p1, p2, snack, i, j));
    }
  }

  /** One player's move inside a tick, keeping the game state consistent. */
  method Advance(gbox: GameBox, p: Player, q: Player, snack: Snack?) returns (ok: bool)
    requires Consistent(gbox, p, q, snack)
    requires Interior((p.gx, p.gy)) && IsDirection((p.dx, p.dy))
    modifies p`gx, p`gy, p`dx, p`dy, p`trail, gbox, gbox.grid
    ensures Consistent(gbox, p, q, snack)
    ensures ok <==> !p.computer || (IsUnit(old((p.dx, p.dy))) && SnackCell(snack) != Some(old((p.gx, p.gy))))
    ensures !ok ==> p.gx == old(p.gx) && p.gy == old(p.gy) && p.trail == old(p.trail)
    ensures IsDirection((p.dx, p.dy)) && |p.trail| == old(|p.trail|)
    ensures p.trail == old(p.trail) || p.trail == old(p.trail)[1..] + [(p.gx, p.gy)]
    ensures ok && !p.computer && old(p.dx == 0 && p.dy == 0) ==> p.trail == old(p.trail)
    ensures ok && !p.computer && old(p.dx != 0 || p.dy != 0) ==> p.trail == old(p.trail)[1..] + [(p.gx, p.gy)]
    ensures ok && p.computer ==> p.trail == old(p.trail)[1..] + [(p.gx, p.gy)]
    ensures ok && !p.computer ==> p.dx == old(p.dx) && p.dy == old(p.dy)
    ensures ok && p.computer ==> IsUnit((p.dx, p.dy))
    ensures ok && p.computer ==>
              SteerSpec(OccGrid(old(p.trail), q.trail, SnackCell(snack)), SnackCell(snack),
                        old((p.gx, p.gy)), old((p.dx, p.dy)), (p.dx, p.dy))
    ensures ok ==> p.gx == old(p.gx) + p.dx && p.gy == old(p.gy) + p.dy
    ensures p.points == old(p.points) && p.wins == old(p.wins) && p.status == old(p.status)
  {
    ghost var cells, h, d := OccGrid(p.trail, q.trail, SnackCell(snack)), (p.gx, p.gy), (p.dx, p.dy);
    ConsistentMirrors(gbox, p, q, snack);
    ok := p.Step(cells);
    assert ok && p.computer ==> SteerSpec(cells, SnackCell(snack), h, d, (p.dx, p.dy));
    forall i, j | 0 <= i <= GRID_XSIZE && 0 <= j <= GRID_YSIZE
      ensures Accounted(gbox, p, q, snack, i, j)
    {
      assert old(Accounted(gbox, p, q, snack, i, j));
      assert gbox.grid[i, j] - old(gbox.grid[i, j]) == Weight(p.trail, (i, j)) - old(Weight(p.trail, (i, j)));
    }
  }

  /** The status step for one player: classify its head cell; on a chomp grow
      by the snack's value, score that value and clear the snack. A chomp with
      no snack to eat is where the source fails (`ok` false). */
  method Resolve(gbox: GameBox, p: Player, q: Player, snack: Snack?) returns (next: Snack?, ok: bool)
    requires Consistent(gbox, p, q, snack)
    modifies p`gx, p`gy, p`trail, p`points, p`status, gbox, gbox.grid
    ensures Consistent(gbox, p, q, next)
    ensures p.status == Classify(old(gbox.grid[p.gx, p.gy]))
    ensures ok <==> !(p.status == Chomp && snack == null)
    ensures ok && p.status == Chomp ==>
              next == null && gbox.snackLocation == None &&
              p.points == old(p.points) + snack.value &&
              p.trail == old(p.trail) + Copies((p.gx, p.gy), snack.value)
    ensures !(ok && p.status == Chomp) ==> next == snack && p.points == old(p.points) && p.trail == old(p.trail)
    ensures !(ok && p.status == Chomp) ==> unchanged(gbox, gbox.grid)
    ensures p.gx == old(p.gx) && p.gy == old(p.gy) && p.dx == old(p.dx) && p.dy == old(p.dy) && p.wins == old(p.wins)
  {
    next, ok := snack, true;
    p.UpdateStatus();
    if p.status == Chomp {
      if next == null {
        return next, false;
      }
      p.Grow(next.value, next.value);
      next.Clear();
      next := null;
    }
    forall i, j | 0 <= i <= GRID_XSIZE && 0 <= j <= GRID_YSIZE
      ensures Accounted(gbox, p, q, next, i, j)
    {
      assert old(Accounted(gbox, p, q, snack, i, j));
    }
  }

  /** Both players move, the first one first, before either is classified.
      From a tick-start state neither move fails: a computer player holds a
      unit direction and its head is never under the snack. */
  method MovePlayers(gbox: GameBox, p1: Player, p2: Player, snack: Snack?)
    requires InPlay(gbox, p1, p2, snack)
    requires IsDirection((p1.dx, p1.dy)) && IsDirection((p2.dx, p2.dy))
    modifies p1`gx, p1`gy, p1`dx, p1`dy, p1`trail, p2`gx, p2`gy, p2`dx, p2`dy, p2`trail, gbox, gbox.grid
    ensures Moved(gbox, p1, p2, snack)
    ensures (p1.computer ==> IsUnit((p1.dx, p1.dy))) && (p2.computer ==> IsUnit((p2.dx, p2.dy)))
    ensures !p1.computer ==> p1.dx == old(p1.dx) && p1.dy == old(p1.dy)
    ensures !p2.computer ==> p2.dx == old(p2.dx) && p2.dy == old(p2.dy)
    ensures p1.gx == old(p1.gx) + p1.dx && p1.gy == old(p1.gy) + p1.dy
    ensures p2.gx == old(p2.gx) + p2.dx && p2.gy == old(p2.gy) + p2.dy
    ensures old(p1.dx == 0 && p1.dy == 0) ==> p1.trail == old(p1.trail)
    ensures old(p1.dx != 0 || p1.dy != 0) ==> p1.trail == old(p1.trail)[1..] + [(p1.gx, p1.gy)]
    ensures old(p2.dx == 0 && p2.dy == 0) ==> p2.trail == old(p2.trail)
    ensures old(p2.dx != 0 || p2.dy != 0) ==> p2.trail == old(p2.trail)[1..] + [(p2.gx, p2.gy)]
    ensures p1.computer ==>
              SteerSpec(OccGrid(old(p1.trail), old(p2.trail), SnackCell(snack)), SnackCell(snack),
                        old((p1.gx, p1.gy)), old((p1.dx, p1.dy)), (p1.dx, p1.dy))
    ensures p2.computer ==>
              SteerSpec(OccGrid(old(p2.trail), p1.trail, SnackCell(snack)), SnackCell(snack),
                        old((p2.gx, p2.gy)), old((p2.dx, p2.dy)), (p2.dx, p2.dy))
    ensures p1.points == old(p1.points) && p1.wins == old(p1.wins)
    ensures p2.points == old(p2.points) && p2.wins == old(p2.wins)
  {
    ghost var t1, t2 := p1.trail, p2.trail;
    ghost var s := SnackCell(snack);
    ghost var g1, g2, d1, d2 := (p1.gx, p1.gy), (p2.gx, p2.gy), (p1.dx, p1.dy), (p2.dx, p2.dy);
    assert t1[|t1| - 1] == (p1.gx, p1.gy) && t2[|t2| - 1] == (p2.gx, p2.gy);
    var ok := Advance(gbox, p1, p2, snack);
    assert ok;
    ghost var u1, h1, e1 := p1.trail, (p1.gx, p1.gy), (p1.dx, p1.dy);
    assert h1 == (g1.0 + e1.0, g1.1 + e1.1);
    assert p1.computer ==> SteerSpec(OccGrid(t1, t2, s), s, g1, d1, e1);
    ConsistentSwap(gbox, p1, p2, snack);
    ok := Advance(gbox, p2, p1, snack);
    assert ok;
    assert p2.computer ==> SteerSpec(OccGrid(t2, u1, s), s, g2, d2, (p2.dx, p2.dy));
    assert p1.trail == u1 && (p1.gx, p1.gy) == h1 && (p1.dx, p1.dy) == e1;
    ConsistentSwap(gbox, p2, p1, snack);
    MovesKeep(t1, t2, u1, p2.trail, h1, (p2.gx, p2.gy), s);
  }

  /** Both players are classified in order, the second one seeing the grid as
      the first one's chomp left it. After two moves the order does not
      matter: each status is the class of the player's head cell as the moves
      left it, a player chomps only where the snack is, so never both and
      never without a snack, and a player that did not crash is alone on an
      inner cell. */
  method ResolveBoth(gbox: GameBox, p1: Player, p2: Player, snack: Snack?) returns (next: Snack?)
    requires Moved(gbox, p1, p2, snack)
    modifies p1`gx, p1`gy, p1`trail, p1`points, p1`status, p2`gx, p2`gy, p2`trail, p2`points, p2`status, gbox, gbox.grid
    ensures Consistent(gbox, p1, p2, next)
    ensures p1.status == Classify(old(gbox.grid[p1.gx, p1.gy]))
    ensures p2.status == Classify(old(gbox.grid[p2.gx, p2.gy]))
    ensures p1.status == Chomp ==> snack != null && SnackCell(snack) == Some((p1.gx, p1.gy))
    ensures p2.status == Chomp ==> snack != null && SnackCell(snack) == Some((p2.gx, p2.gy))
    ensures p1.status != Collision ==> Interior((p1.gx, p1.gy)) && old(Alone(p1, p2))
    ensures p2.status != Collision ==> Interior((p2.gx, p2.gy)) && old(Alone(p2, p1))
    ensures p1.status != Chomp && SnackCell(snack) == Some((p1.gx, p1.gy)) ==> p1.status == Collision
    ensures p2.status != Chomp && SnackCell(snack) == Some((p2.gx, p2.gy)) ==> p2.status == Collision
    ensures var value := if snack != null then snack.value else 0;
              && p1.points == old(p1.points) + (if p1.status == Chomp then value else 0)
              && p1.trail == old(p1.trail) + Copies((p1.gx, p1.gy), if p1.status == Chomp then value else 0)
              && p2.points == old(p2.points) + (if p2.status == Chomp then value else 0)
              && p2.trail == old(p2.trail) + Copies((p2.gx, p2.gy), if p2.status == Chomp then value else 0)
    ensures next == (if p1.status == Chomp || p2.status == Chomp then null else snack)
    ensures p1.gx == old(p1.gx) && p1.gy == old(p1.gy) && p2.gx == old(p2.gx) && p2.gy == old(p2.gy)
    ensures p1.dx == old(p1.dx) && p1.dy == old(p1.dy) && p2.dx == old(p2.dx) && p2.dy == old(p2.dy)
    ensures p1.wins == old(p1.wins) && p2.wins == old(p2.wins)
  {
    ghost var h1, h2 := (p1.gx, p1.gy), (p2.gx, p2.gy);
    ghost var t1, t2 := p1.trail, p2.trail;
    ghost var v2 := gbox.grid[h2.0, h2.1];
    HeadVerdict(gbox, p1, p2, snack);
    MovedSwap(gbox, p1, p2, snack);
    HeadVerdict(gbox, p2, p1, snack);

    var ok;
    next, ok := Resolve(gbox, p1, p2, snack);
    assert ok;
    ConsistentSwap(gbox, p1, p2, next);
    if p1.status == Chomp {
      assert h2 != h1;
      CopiesCount(h1, snack.value, h2);
      assert Accounted(gbox, p2, p1, next, h2.0, h2.1);
      assert old(Accounted(gbox, p1, p2, snack, h2.0, h2.1));
    } else {
      assert t1 + Copies(h1, 0) == t1;
    }
    assert gbox.grid[h2.0, h2.1] == v2;
    next, ok := Resolve(gbox, p2, p1, next);
    assert ok;
    ConsistentSwap(gbox, p2, p1, next);
    if p2.status != Chomp {
      assert t2 + Copies(h2, 0) == t2;
    }
  }

  /** The status step of a tick: both players are classified; a crash ends the
      round with a win for each player that did not crash, and both crashing
      is a double loss. A round that goes on is back in a tick-start state. */
  method ClassifyPlayers(gbox: GameBox, p1: Player, p2: Player, snack: Snack?) returns (next: Snack?, outcome: Outcome)
    requires Moved(gbox, p1, p2, snack)
    requires (p1.computer ==> IsUnit((p1.dx, p1.dy))) && (p2.computer ==> IsUnit((p2.dx, p2.dy)))
    modifies p1`gx, p1`gy, p1`trail, p1`points, p1`status, p1`wins, p2`gx, p2`gy, p2`trail, p2`points, p2`status, p2`wins, gbox, gbox.grid
    ensures Consistent(gbox, p1, p2, next)
    ensures outcome == Running ==> InPlay(gbox, p1, p2, next)
    ensures p1.status == Classify(old(gbox.grid[p1.gx, p1.gy]))
    ensures p2.status == Classify(old(gbox.grid[p2.gx, p2.gy]))
    ensures p1.status == Classify(Occupancy((p1.gx, p1.gy), old(p1.trail), old(p2.trail), SnackCell(snack)))
    ensures p2.status == Classify(Occupancy((p2.gx, p2.gy), old(p1.trail), old(p2.trail), SnackCell(snack)))
    ensures p1.status == Chomp ==> snack != null && SnackCell(snack) == Some((p1.gx, p1.gy))
    ensures p2.status == Chomp ==> snack != null && SnackCell(snack) == Some((p2.gx, p2.gy))
    ensures p1.status != Collision ==> Interior((p1.gx, p1.gy))
    ensures p2.status != Collision ==> Interior((p2.gx, p2.gy))
    ensures !(p1.status == Chomp && p2.status == Chomp)
    ensures p1.wins == old(p1.wins) + (if outcome.GameOver? && !outcome.p1Crash && outcome.p2Crash then 1 else 0)
    ensures p2.wins == old(p2.wins) + (if outcome.GameOver? && !outcome.p2Crash && outcome.p1Crash then 1 else 0)
    ensures outcome == (if p1.status == Collision || p2.status == Collision
                        then GameOver(p1.status == Collision, p2.status == Collision)
                        else Running)
    ensures var value := if snack != null then snack.value else 0;
              && p1.points == old(p1.points) + (if p1.status == Chomp then value else 0)
              && p1.trail == old(p1.trail) + Copies((p1.gx, p1.gy), if p1.status == Chomp then value else 0)
              && p2.points == old(p2.points) + (if p2.status == Chomp then value else 0)
              && p2.trail == old(p2.trail) + Copies((p2.gx, p2.gy), if p2.status == Chomp then value else 0)
    ensures next == (if p1.status == Chomp || p2.status == Chomp then null else snack)
    ensures p1.gx == old(p1.gx) && p1.gy == old(p1.gy) && p2.gx == old(p2.gx) && p2.gy == old(p2.gy)
    ensures p1.dx == old(p1.dx) && p1.dy == old(p1.dy) && p2.dx == old(p2.dx) && p2.dy == old(p2.dy)
  {
    ghost var t1, t2 := p1.trail, p2.trail;
    assert Accounted(gbox, p1, p2, snack, p1.gx, p1.gy);
    assert Accounted(gbox, p1, p2, snack, p2.gx, p2.gy);
    next := ResolveBoth(gbox, p1, p2, snack);
    var p1crash := p1.status == Collision;
    var p2crash := p2.status == Collision;
    if p1crash || p2crash {
      if !p1crash {
        p1.wins := p1.wins + 1;
      }
      if !p2crash {
        p2.wins := p2.wins + 1;
      }
      return next, GameOver(p1crash, p2crash);
    }
    outcome := Running;
    var value := if snack != null then snack.value else 0;
    Settle(t1, t2, (p1.gx, p1.gy), (p2.gx, p2.gy),
           if p1.status == Chomp then value else 0, if p2.status == Chomp then value else 0, SnackCell(next));
  }

  /** The moves and the classifications of a tick, after the snack event:
      both players move, the second one steering on the grid the first one's
      move left, then both heads are classified on the grid both moves left. */
  method MoveAndClassify(gbox: GameBox, p1: Player, p2: Player, snack: Snack?)
    returns (next: Snack?, outcome: Outcome, ghost moved1: seq<Cell>, ghost moved2: seq<Cell>)
    requires InPlay(gbox, p1, p2, snack)
    requires IsDirection((p1.dx, p1.dy)) && IsDirection((p2.dx, p2.dy))
    modifies gbox, gbox.grid, p1, p2
    ensures Consistent(gbox, p1, p2, next)
    ensures outcome == Running ==> InPlay(gbox, p1, p2, next)
    ensures p1.wins == old(p1.wins) + (if outcome.GameOver? && !outcome.p1Crash && outcome.p2Crash then 1 else 0)
    ensures p2.wins == old(p2.wins) + (if outcome.GameOver? && !outcome.p2Crash && outcome.p1Crash then 1 else 0)
    ensures outcome == (if p1.status == Collision || p2.status == Collision
                        then GameOver(p1.status == Collision, p2.status == Collision)
                        else Running)
    ensures !p1.computer ==> p1.dx == old(p1.dx) && p1.dy == old(p1.dy)
    ensures !p2.computer ==> p2.dx == old(p2.dx) && p2.dy == old(p2.dy)
    ensures p1.gx == old(p1.gx) + p1.dx && p1.gy == old(p1.gy) + p1.dy
    ensures p2.gx == old(p2.gx) + p2.dx && p2.gy == old(p2.gy) + p2.dy
    ensures p1.computer ==>
              SteerSpec(OccGrid(old(p1.trail), old(p2.trail), SnackCell(snack)), SnackCell(snack),
                        old((p1.gx, p1.gy)), old((p1.dx, p1.dy)), (p1.dx, p1.dy))
    ensures p2.computer ==>
              SteerSpec(OccGrid(old(p2.trail), moved1, SnackCell(snack)), SnackCell(snack),
                        old((p2.gx, p2.gy)), old((p2.dx, p2.dy)), (p2.dx, p2.dy))
    ensures old(p1.dx == 0 && p1.dy == 0) ==> moved1 == old(p1.trail)
    ensures old(p1.dx != 0 || p1.dy != 0) ==> moved1 == old(p1.trail)[1..] + [(p1.gx, p1.gy)]
    ensures old(p2.dx == 0 && p2.dy == 0) ==> moved2 == old(p2.trail)
    ensures old(p2.dx != 0 || p2.dy != 0) ==> moved2 == old(p2.trail)[1..] + [(p2.gx, p2.gy)]
    ensures p1.status == Classify(Occupancy((p1.gx, p1.gy), moved1, moved2, SnackCell(snack)))
    ensures p2.status == Classify(Occupancy((p2.gx, p2.gy), moved1, moved2, SnackCell(snack)))
    ensures p1.status == Chomp ==> snack != null && SnackCell(snack) == Some((p1.gx, p1.gy))
    ensures p2.status == Chomp ==> snack != null && SnackCell(snack) == Some((p2.gx, p2.gy))
    ensures !(p1.status == Chomp && p2.status == Chomp)
    ensures p1.status != Collision ==> Interior((p1.gx, p1.gy))
    ensures p2.status != Collision ==> Interior((p2.gx, p2.gy))
    ensures var value := if snack != null then snack.value else 0;
              && p1.points == old(p1.points) + (if p1.status == Chomp then value else 0)
              && p1.trail == moved1 + Copies((p1.gx, p1.gy), if p1.status == Chomp then value else 0)
              && p2.points == old(p2.points) + (if p2.status == Chomp then value else 0)
              && p2.trail == moved2 + Copies((p2.gx, p2.gy), if p2.status == Chomp then value else 0)
    ensures next == (if p1.status == Chomp || p2.status == Chomp then null else snack)
  {
    MovePlayers(gbox, p1, p2, snack);
    moved1, moved2 := p1.trail, p2.trail;
    next, outcome := ClassifyPlayers(gbox, p1, p2, snack);
  }

  /** One game tick of play (the every-other-tick pacing aside): the snack
      event, then both players move, then both are classified. From a
      tick-start state no step fails, and if the round goes on the next tick
      starts from a tick-start state again, so every head stays inside the
      wall for the whole round. `seen` is the snack's cell after the event,
      which is what both moves and both classifications see. */
  method Tick(gbox: GameBox, p1: Player, p2: Player, snack: Snack?,
              event: bool, despawn: bool, x: int, y: int, v: int)
    returns (next: Snack?, outcome: Outcome,
             ghost seen: Option<Cell>, ghost worth: nat, ghost moved1: seq<Cell>, ghost moved2: seq<Cell>)
    requires InPlay(gbox, p1, p2, snack)
    requires IsDirection((p1.dx, p1.dy)) && IsDirection((p2.dx, p2.dy))
    requires event && snack == null ==> SpawnAllowed(gbox, x, y, v)
    modifies gbox, gbox.grid, p1, p2
    ensures Consistent(gbox, p1, p2, next)
    ensures outcome == Running ==> InPlay(gbox, p1, p2, next)
    ensures p1.wins == old(p1.wins) + (if outcome.GameOver? && !outcome.p1Crash && outcome.p2Crash then 1 else 0)
    ensures p2.wins == old(p2.wins) + (if outcome.GameOver? && !outcome.p2Crash && outcome.p1Crash then 1 else 0)
    ensures outcome == (if p1.status == Collision || p2.status == Collision
                        then GameOver(p1.status == Collision, p2.status == Collision)
                        else Running)
    ensures seen == (if !event then SnackCell(snack)
                     else if snack != null then (if despawn then None else SnackCell(snack))
                     else Some((x, y)))
    ensures worth == (if seen.None? then 0 else if snack != null then snack.value else v)
    ensures seen.Some? ==> seen.value !in old(p1.trail) && seen.value !in old(p2.trail)
    ensures !p1.computer ==> p1.dx == old(p1.dx) && p1.dy == old(p1.dy)
    ensures !p2.computer ==> p2.dx == old(p2.dx) && p2.dy == old(p2.dy)
    ensures p1.gx == old(p1.gx) + p1.dx && p1.gy == old(p1.gy) + p1.dy
    ensures p2.gx == old(p2.gx) + p2.dx && p2.gy == old(p2.gy) + p2.dy
    ensures p1.computer ==>
              SteerSpec(OccGrid(old(p1.trail), old(p2.trail), seen), seen,
                        old((p1.gx, p1.gy)), old((p1.dx, p1.dy)), (p1.dx, p1.dy))
    ensures p2.computer ==>
              SteerSpec(OccGrid(old(p2.trail), moved1, seen), seen,
                        old((p2.gx, p2.gy)), old((p2.dx, p2.dy)), (p2.dx, p2.dy))
    ensures old(p1.dx == 0 && p1.dy == 0) ==> moved1 == old(p1.trail)
    ensures old(p1.dx != 0 || p1.dy != 0) ==> moved1 == old(p1.trail)[1..] + [(p1.gx, p1.gy)]
    ensures old(p2.dx == 0 && p2.dy == 0) ==> moved2 == old(p2.trail)
    ensures old(p2.dx != 0 || p2.dy != 0) ==> moved2 == old(p2.trail)[1..] + [(p2.gx, p2.gy)]
    ensures p1.status == Classify(Occupancy((p1.gx, p1.gy), moved1, moved2, seen))
    ensures p2.status == Classify(Occupancy((p2.gx, p2.gy), moved1, moved2, seen))
    ensures p1.status == Chomp ==> seen == Some((p1.gx, p1.gy))
    ensures p2.status == Chomp ==> seen == Some((p2.gx, p2.gy))
    ensures !(p1.status == Chomp && p2.status == Chomp)
    ensures p1.status != Collision ==> Interior((p1.gx, p1.gy))
    ensures p2.status != Collision ==> Interior((p2.gx, p2.gy))
    ensures p1.points == old(p1.points) + (if p1.status == Chomp then worth else 0)
    ensures p1.trail == moved1 + Copies((p1.gx, p1.gy), if p1.status == Chomp then worth else 0)
    ensures p2.points == old(p2.points) + (if p2.status == Chomp then worth else 0)
    ensures p2.trail == moved2 + Copies((p2.gx, p2.gy), if p2.status == Chomp then worth else 0)
    ensures p1.status == Chomp || p2.status == Chomp ==> next == null && gbox.snackLocation == None
    ensures p1.status != Chomp && p2.status != Chomp ==> SnackCell(next) == seen
    ensures p1.status != Chomp && p2.status != Chomp && next != null ==> next.value == worth
    ensures p1.status != Chomp && p2.status != Chomp && (!event || (snack != null && !despawn)) ==> next == snack
  {
    ghost var t1, t2 := p1.trail, p2.trail;
    ghost var h1, h2, d1, d2 := (p1.gx, p1.gy), (p2.gx, p2.gy), (p1.dx, p1.dy), (p2.dx, p2.dy);
    var mid := SnackEvent(gbox, p1, p2, snack, event, despawn, x, y, v);
    seen := SnackCell(mid);
    worth := if mid != null then mid.value else 0;
    assert p1.trail == t1 && p2.trail == t2 && (p1.gx, p1.gy) == h1 && (p2.gx, p2.gy) == h2;
    assert (p1.dx, p1.dy) == d1 && (p2.dx, p2.dy) == d2;
    next, outcome, moved1, moved2 := MoveAndClassify(gbox, p1, p2, mid);
    assert p1.computer ==> SteerSpec(OccGrid(t1, t2, seen), seen, h1, d1, (p1.dx, p1.dy));
    assert p2.computer ==> SteerSpec(OccGrid(t2, moved1, seen), seen, h2, d2, (p2.dx, p2.dy));
  }

  /** Two new players on a grid in its initial layout: the first at (1, 4),
      the second, a computer player if asked, at (22, 4). */
  method Enter(gbox: GameBox, computer: bool) returns (p1: Player, p2: Player)
    requires HasGridShape(gbox.grid) && IsInitialGrid(gbox.grid) && gbox.snackLocation == None
    modifies gbox, gbox.grid
    ensures fresh(p1) && fresh(p2)
    ensures Consistent(gbox, p1, p2, null)
    ensures !p1.computer && p2.computer == computer
    ensures (p1.gx, p1.gy) == (1, 4) && p1.trail == [(1, 4), (1, 4), (1, 4)]
    ensures (p2.gx, p2.gy) == (22, 4) && p2.trail == [(22, 4), (22, 4), (22, 4)]
    ensures p1.points == 0 && p1.wins == 0 && p2.points == 0 && p2.wins == 0
  {
    p1 := new Player(gbox, 1, 4, false);
    p2 := new Player(gbox, 22, 4, computer);
    forall x, y | 0 <= x <= GRID_XSIZE && 0 <= y <= GRID_YSIZE
      ensures Accounted(gbox, p1, p2, null, x, y)
    {
    }
  }

  /** A new game: the arena and the two players at their start cells, the
      second one a computer player if chosen, each set off towards the other. */
  method NewGame(computerPlays: bool) returns (gbox: GameBox, p1: Player, p2: Player)
    ensures fresh(gbox) && fresh(gbox.grid) && fresh(p1) && fresh(p2)
    ensures InPlay(gbox, p1, p2, null)
    ensures !p1.computer && p2.computer == computerPlays
    ensures (p1.gx, p1.gy) == (1, 4) && p1.trail == [(1, 4), (1, 4), (1, 4)] && (p1.dx, p1.dy) == RIGHT
    ensures (p2.gx, p2.gy) == (22, 4) && p2.trail == [(22, 4), (22, 4), (22, 4)] && (p2.dx, p2.dy) == LEFT
    ensures p1.points == 0 && p1.wins == 0 && p2.points == 0 && p2.wins == 0
  {
    gbox := new GameBox();
    p1, p2 := Enter(gbox, false);
    if computerPlays {
      gbox.GridReset();
      p1, p2 := Enter(gbox, true);
    }
    SetOff(gbox, p1, p2);
  }
}
