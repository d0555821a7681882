# Snackade simulation core in Dafny

Snackade is a two-player snake game on a 24×16 grid of cells. Each snake has a head and a trail of cells behind it. A snack worth 1 to 3 points appears and disappears at random. A snake that runs onto the snack eats it, grows by its value and scores that value. A snake whose head hits the wall or a body crashes, which ends the round. Every player that did not crash gets a win. The second snake may be a computer player that steers by fixed tables.

The game detects everything through a single occupancy grid. Every sprite adds its weight to the counter of the cell it covers: the wall 1, each trail entry 1, the snack 10. A player's status is read from the counter of its head cell alone.

The model has four modules:

- `Grid` (`grid.dfy`): the constants, `init_grid` over an `array2<int>`, and the `GameBox` class. The class owns the grid and the cached snack location, and provides `grid_reset` and `grid_upval`.
- `Steering` (`steering.dfy`): `dir_map` and the `RIGHT_TURN`, `LEFT_TURN` and `SNACK_TURN` tables as Dafny maps. It also holds the decision procedure of `ComputerPlayer.move`, both as a loop over the grid array and as a declarative specification (`AvoidSpec`, `SteerSpec`). The specification reads the grid's counters as a value, a function from cells to counters. A ghost parameter of the loop ties that value to the array (`Mirrors`).
- `Sprites` (`sprites.dfy`):
  - the status thresholds;
  - the `Snack` class;
  - the `Player` class, whose fields are updated in place, with `place`, `remove`, `set_head`, `set_direction`, `grow`, `move` and `update_status`;
  - the computer player's move. A flag `computer` on `Player` stands in for the `ComputerPlayer` subclass, and `Step` dispatches on it.
- `Play` (`play.dfy`): the per-tick rules of `play`, the start of a game and of each round, and two invariants:
  - `Consistent`: every counter of the grid equals the wall weight, plus one per entry of either trail on that cell, plus 10 if the snack is there. The cached snack location is the snack's cell.
  - `InPlay`: the state at the top of every tick. It is `Consistent`, and in addition:
    - both trails lie strictly inside the wall;
    - no trail entry lies under the snack;
    - no cell carries more than 4 trail entries;
    - a computer player holds one of the four unit directions.

  `NewGame` and `StartRound` establish `InPlay`. `Tick` preserves it whenever the round goes on. From such a state no tick reaches the places where the source would raise an exception. Those places are:
  - a turn-table lookup without a key, modelled by `Step` returning `ok == false`;
  - eating a snack that is not there, modelled by `Resolve` returning `ok == false`.

  Heads therefore never leave the arena. After both moves, the order in which the two players are classified makes no difference.

  `Tick` also returns ghost values for its contract: the snack's cell after the random event (`seen`), that snack's value (`worth`), and both trails after the moves (`moved1`, `moved2`). With them its contract ties each status to the grid both moves left.

The random draws become parameters, as does keyboard input, which is the caller's `SetDirection`:
- whether the snack event fires;
- whether a present snack is removed;
- the snack's cell and value.

With no clear option the computer player takes the left turn, the last option its search tried (`AvoidSpec`, `SteerAvoidsHazard`).

## Model

| member | source | states |
|---|---|---|
| Grid.InitGrid | snackade.py:90-105 | afterwards every cell on row 0 or 15 or column 0 or 23 holds the wall weight 1 and every other cell holds 0 |
| Grid.GameBox.constructor | snackade.py:264-274 | a new box has a fresh grid in the initial layout and no snack location |
| Grid.GameBox.GridReset | snackade.py:288-290 | the grid is back in the initial layout and the snack location is cleared |
| Grid.GameBox.GridUpval | snackade.py:295-300 | only cell (x, y) changes, by exactly v; the snack location becomes (x, y) iff v is +10, is cleared iff v is -10, and is otherwise kept |
| Steering.DirMapQuotient | snackade.py:86 | `DirMap`, the model of dir_map that `Tentative` calls, equals the source's 0 for 0 and otherwise abs(x) // x, the sign of x: 1, -1 or 0 (floor and Euclidean division agree on these exact quotients) |
| Steering.TurnTables | snackade.py:475-476 | both tables are defined on exactly the four unit directions; the right turn maps (dx, dy) to (-dy, dx) and the left turn to (dy, -dx); both give unit directions and undo each other |
| Steering.SnackTurnTotal | snackade.py:484-493 | the table is keyed by exactly the eight non-zero sign pairs, each row by exactly the four unit directions; a lookup succeeds iff the sector is a non-zero sign pair and the direction is a unit |
| Steering.SnackTurnSteersTowardsSnack | snackade.py:484-493 | every entry is a unit direction and never the reverse of the current one; a snack straight ahead keeps the direction; otherwise the entry has a positive component towards the snack, except a snack straight behind, which gives a quarter turn |
| Steering.Tentative | snackade.py:505-511 | with no snack the tentative direction is the current one; with one it is a unit direction that is never the reverse of the current one |
| Steering.TurnOptions | snackade.py:500-503 | three unit options in the order tried: the current direction (dx, dy), its right turn (-dy, dx) and its left turn (dy, -dx) |
| Steering.AvoidHazard | snackade.py:513-518 | reading a grid whose counters are `cells`, the search loop yields a unit direction satisfying AvoidSpec: the tentative direction unless its cell is a hazard (non-zero and below 10), then the first clear option among straight, right, left, and the left turn when none is clear |
| Steering.ChooseDirection | snackade.py:499-520 | the computer player's choice is a unit direction satisfying SteerSpec on the grid's counters: the hazard rule applied to the table's tentative direction |
| Steering.SteerDeterministic | snackade.py:499-520 | the choice is determined by the grid, the snack location, the head and the direction: two choices meeting SteerSpec are equal |
| Steering.SteerAvoidsHazard | snackade.py:513-518 | the computer player steps into a hazard only if none of straight, right and left is clear, and then it has taken the left turn |
| Steering.SteerTurnsRight | snackade.py:513-518 | with no snack, a blocked cell ahead and a clear cell to the right, the computer player turns right |
| Sprites.Classify | snackade.py:441-450 | collision iff 1 < v < 10 or v == 12; chomp iff v == 11; clear iff v <= 1, v == 10 or v >= 13 |
| Sprites.ClassifyOccupants | snackade.py:444-448 | read by occupants of the head cell: alone is clear, alone with the snack is a chomp, one wall or extra segment is a collision with or without the snack; very large stacks are misread (9 or 12+ clear, 10 chomp, 11 collision) |
| Sprites.CopiesCount | snackade.py:425-427 | growing a trail by k copies of the head adds k entries on the head cell and none elsewhere |
| Sprites.Snack.constructor | snackade.py:332-350 | a snack placed on a clear cell in 2..22 by 2..14 with value 1..3 adds 10 to that cell only and records its location |
| Sprites.Snack.Clear | snackade.py:356-362 | clearing takes 10 off the snack's cell only and forgets the snack location |
| Sprites.Player.constructor | snackade.py:372-400 | a new player has no points, no wins, status clear and a three-entry trail on its start cell, whose counter rises by 3 |
| Sprites.Player.Place | snackade.py:313-319 | the position becomes (x, y) and that cell alone gains one player weight |
| Sprites.Player.Remove | snackade.py:321-325 | cell (x, y) alone loses one player weight |
| Sprites.Player.PlaceThenRemove | snackade.py:313-325 | placing and then removing at the same cell leaves every counter and the snack location as they were |
| Sprites.Player.SetHead | snackade.py:402-407 | the trail becomes three entries on the head cell, whose counter rises by 3; score, wins and direction are kept |
| Sprites.Player.SetDirection | snackade.py:409-416 | the direction becomes (x, y) |
| Sprites.Player.Grow | snackade.py:418-428 | the trail gains `segments` copies of the head, the head cell gains that many player weights, and the score rises by `pts` |
| Sprites.Player.Move | snackade.py:430-439 | standing still changes nothing; otherwise the head steps by the direction, is appended, the oldest entry is dropped, the length is kept, and every counter changes exactly as the trail's entries on it |
| Sprites.Player.UpdateStatus | snackade.py:441-450 | the status is the class of the head cell's counter |
| Sprites.Player.ComputerMove | snackade.py:499-521 | the new direction is the unit direction SteerSpec prescribes for the grid's counters and the snack location before the move; the head then steps by it, the oldest trail entry is dropped and the new head appended, and every counter changes exactly as the trail's entries on it |
| Sprites.Player.Step | snackade.py:499-521 | a human player always moves in its direction: standing still keeps the trail, otherwise the oldest entry is dropped and the new head appended; a computer player fails exactly when its direction is not a unit or its head is on the snack, and then nothing changes; otherwise it takes the direction SteerSpec prescribes and its trail steps; score, wins and status are kept and the grid changes as the trail does |
| Play.Enter | snackade.py:612-618 | on an initial grid, two new players at (1, 4) and (22, 4) make a consistent state with no snack |
| Play.SetOff | snackade.py:620-621 | players at their start cells with no snack, once set off right and left, are in a tick-start state |
| Play.NewGame | snackade.py:610-621 | a new game, with or without the computer player, starts in a tick-start state with no points and no wins |
| Play.StartRound | snackade.py:626-630 | a replayed round starts in a tick-start state with the players back at their start cells, keeping points and wins |
| Play.SnackEvent | snackade.py:558-565 | without the event nothing changes; a present snack is removed iff the second draw fires; a missing snack is placed at the drawn cell with the drawn value; the tick-start state is kept |
| Play.ConsistentMirrors | snackade.py:513-517 | in a consistent state the grid holds exactly the counters Occupancy prescribes for both trails and the snack, so the computer player's grid reads see those counters |
| Play.Advance | snackade.py:568-569 | one player's move keeps the grid consistent; it fails exactly when a computer player lacks a unit direction or sits on the snack; otherwise the head steps by the direction and the trail is exactly the moved trail; a computer's new direction is the one SteerSpec prescribes on the counters Occupancy gives for both trails and the snack before the move |
| Play.MovesKeep | snackade.py:568-569 | after both moves, the trails without their heads are still inside the wall, off the snack cell and within the stack bound |
| Play.MovePlayers | snackade.py:567-569 | from a tick-start state both moves succeed; each head steps by its direction and a human keeps its direction; each trail is exactly its moved trail (kept when standing still, otherwise the oldest entry dropped and the new head appended); the first computer steers on the grid before both moves, the second on the grid the first move left; the moved state holds |
| Play.HeadVerdict | snackade.py:572-580 | after the moves, a head on the wall crashes; a head that does not crash is alone on an inner cell; a head chomps iff it is alone on the snack's cell |
| Play.Resolve | snackade.py:572-580 | the status is the class of the head cell's counter; a chomp grows the player and its score by the snack's value and clears the snack; a chomp with no snack is the failure |
| Play.ResolveBoth | snackade.py:571-581 | each status is the class of the head cell as both moves left it; at most one player chomps, and only on the snack; a player that did not crash was alone on an inner cell |
| Play.Settle | snackade.py:576-579 | growing a surviving head by at most 3 keeps trails inside the wall, off any remaining snack and within 4 entries per cell |
| Play.ClassifyPlayers | snackade.py:571-599 | each status is the class of the counter Occupancy gives at the head for the moved trails and the snack; a chomp happens only with the snack at the head and never for both; a player that did not crash is on an inner cell; a chomp grows the trail by exactly the snack's value in copies of the head, raises the score by it and removes the snack; the outcome is game over with the crash flags iff some player crashed; each player that did not crash gains one win; if play goes on the state is again a tick-start state |
| Play.MoveAndClassify | snackade.py:567-599 | both moves, then both classifications: the exact moved trails and steering of MovePlayers, the statuses read from Occupancy of both moved trails and the snack, and the growth, scores, wins, outcome and snack of ClassifyPlayers |
| Play.Tick | snackade.py:558-599 | from a tick-start state: `seen`, the snack's cell after the random event (kept, removed or spawned at the drawn cell), is off both trails; both players move as in MovePlayers, steering on `seen`; each status is the class of the counter Occupancy gives at its head for both moved trails and `seen`; a chomp needs `seen` at the head, grows the trail by `worth` (the value of the snack after the event) copies of the head, raises the score by `worth` and removes the snack; otherwise the snack on `seen` stays and is worth `worth`, and with no event, or an event that keeps an existing snack, it is the same snack; wins and outcome follow the crashes; a tick that does not end the round leads to a tick-start state |

## Left out

- Drawing, sound, the clock, the intro menu, the end-of-round screens and the every-other-tick pacing are not modelled. They are pixel, audio and timing I/O with no effect on the grid.
- Keyboard input, which sets a human player's direction to one of the four units, is the caller's `SetDirection`.
- The `randint` draws are parameters.
- `Sprites.Snack.constructor` does not model the retry loop that draws cells until one is clear. The drawn cell must be clear (`Play.SpawnAllowed`), and the loop stops only if such a cell exists.
- `GameBox.grid_setval` (never called) and `GridSprite.location` are not modelled. `grid_val` is a direct array read.
- The `tail` attribute that `move` keeps for drawing, and the colours and rectangles, are not modelled.
- Python lists accept negative indices and raise on indices that are too large. Every grid access in the model requires an in-range cell, and `Sprites.Player.Step` and `Play.Advance` require the head to be an inner cell. Under the round invariant, heads are always inner cells.
- `Sprites.Player.constructor`: the direction starts as (0, 0). In the source the attributes do not exist until `set_direction`, which `main` always calls before play.
- `Sprites.Player.Grow`: the number of segments is a natural number. The source only ever passes 2 or a snack value.
- `Play.Tick` requires the round invariant `InPlay`. Ticks from states no game reaches are covered only by the per-player members, `Play.Advance` and `Play.Resolve`, which keep the source's failure paths.
- `Sprites.Player.Move`: the player's total weight on the grid is stated cell by cell (each counter changes exactly as the trail's entries on it), not as a sum over the grid.
