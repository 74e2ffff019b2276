/** The initial state built at the start of `main` in terminal_invaders.py: the
    formation on row 1 across the centre third of the screen, and the player's column. */
module Setup {
  import opened Formation

  /** Python's `range(start, stop, 2)`. */
  function Range2(start: int, stop: int): (r: seq<int>)
    ensures |r| == if stop > start then (stop - start + 1) / 2 else 0
    ensures forall i :: 0 <= i < |r| ==> r[i] == start + 2 * i
    decreases stop - start
  {
    if start >= stop then [] else [start] + Range2(start + 2, stop)
  }

  /** A value is produced by the range exactly when it lies in `[start, stop)` an
      even distance from `start`. */
  lemma Range2Members(start: int, stop: int, v: int)
    ensures v in Range2(start, stop) <==> start <= v < stop && (v - start) % 2 == 0
  {
    var r := Range2(start, stop);
    if start <= v < stop && (v - start) % 2 == 0 {
      assert r[(v - start) / 2] == v;
    }
  }

  /** The enemies' starting columns: `third + 1, third + 3, ...` up to `2 * third`. */
  function InitialColumns(width: int): seq<int>
  {
    var third := width / 3;
    Range2(third + 1, third * 2 + 1)
  }

  /** The initial enemy list: one alive enemy on row 1 at each starting column. */
  function InitialEnemies(width: int): (r: seq<Enemy>)
    ensures |r| == |InitialColumns(width)|
    ensures forall i :: 0 <= i < |r| ==> r[i] == Enemy(1, InitialColumns(width)[i], true)
  {
    var cs := InitialColumns(width);
    seq(|cs|, i requires 0 <= i < |cs| => Enemy(1, cs[i], true))
  }

  /** The formation starts moving right, not descending. */
  const INITIAL_HEADING: Heading := Heading(1, false)

  /** The player's starting column, bottom centre. */
  function PlayerStart(width: int): (x: int)
    requires width >= 3
    ensures 0 <= x <= width - 2
  {
    width / 2
  }

  /** On any screen the size check admits, the formation is non-empty, fully alive,
      on row 1, and spaced two columns apart from `third + 1` up to at most `2 * third`;
      so the `min`/`max` over it that follow initialisation are defined. */
  lemma InitialFormation(width: int)
    requires width >= 3
    ensures |InitialEnemies(width)| >= 1
    ensures AliveCount(InitialEnemies(width)) == |InitialEnemies(width)|
    ensures forall i :: 0 <= i < |InitialEnemies(width)| ==>
              InitialEnemies(width)[i].y == 1
              && InitialEnemies(width)[i].x == width / 3 + 1 + 2 * i
              && InitialEnemies(width)[i].x <= 2 * (width / 3)
  {
  }

  /** A 21-column screen starts the formation on columns 8, 10, 12 and 14. */
  lemma Width21Columns()
    ensures InitialColumns(21) == [8, 10, 12, 14]
  {
    assert Range2(14, 15) == [14];
    assert Range2(12, 15) == [12, 14];
    assert Range2(10, 15) == [10, 12, 14];
  }

  /** From four columns on, the initial formation is contained: every enemy is on the
      grid and the first rightward step keeps it there. */
  lemma InitialSwarmContained(width: int)
    requires width >= 4
    ensures Contained(Swarm(InitialEnemies(width), INITIAL_HEADING), width)
  {
    assert 2 * (width / 3) <= width - 2;
  }

  /** On the narrowest screen the size check admits, the single enemy starts in the
      last column heading right: the formation is not contained. */
  lemma Width3NotContained()
    ensures InitialEnemies(3) == [Enemy(1, 2, true)]
    ensures !Contained(Swarm(InitialEnemies(3), INITIAL_HEADING), 3)
  {
    assert InitialColumns(3) == [2];
    assert InitialEnemies(3)[0] == Enemy(1, 2, true);
  }

  /** ... and it walks off the grid: the edge test compares for equality with column
      `width - 1` after the move, which the enemy has already passed, so after `k`
      sweeps it sits in column `2 + k` and the heading never changes. */
  lemma {:induction false} Width3WalksOff(k: nat)
    ensures SweepN(Swarm(InitialEnemies(3), INITIAL_HEADING), 3, k)
         == Swarm([Enemy(1, 2 + k, true)], INITIAL_HEADING)
  {
    var f := Swarm(InitialEnemies(3), INITIAL_HEADING);
    if k == 0 {
      Width3NotContained();
    } else {
      Width3WalksOff(k - 1);
      assert SweepN(f, 3, k) == Sweep(SweepN(f, 3, k - 1), 3);
      LoneEnemyStep(k + 1);
    }
  }

  /** One sweep of a lone enemy heading right from column `x >= 2` of a 3-column screen. */
  lemma LoneEnemyStep(x: int)
    requires x >= 2
    ensures Sweep(Swarm([Enemy(1, x, true)], INITIAL_HEADING), 3) == Swarm([Enemy(1, x + 1, true)], INITIAL_HEADING)
  {
    var s := [Enemy(1, x, true)];
    MoveAllPointwise(s, INITIAL_HEADING);
    var moved := MoveAll(s, INITIAL_HEADING);
    assert moved == [Enemy(1, x + 1, true)];
    MinOfAlive(3, moved, Column);
    MaxOfAlive(0, moved, Column);
  }
}
