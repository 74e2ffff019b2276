/** The difficulty scaler `update_enemy_speed` of terminal_invaders.py: the formation's
    movement interval, in seconds, eased quadratically from the fraction destroyed. */
module Difficulty {

  const INITIAL_ENEMY_SPEED: real := 0.5
  const MAX_ENEMY_SPEED: real := 0.05

  /** The interval between formation moves once `aliveCount` of `totalCount`
      enemies remain: `0.5 - 0.45 * ratio^2` with `ratio` the fraction destroyed,
      and never below the floor `MAX_ENEMY_SPEED`. */
  function EnemySpeed(aliveCount: int, totalCount: int): (r: real)
    requires totalCount > 0
    ensures r >= MAX_ENEMY_SPEED
    ensures 0 <= aliveCount ==> r <= INITIAL_ENEMY_SPEED
  {
    var destroyed := totalCount - aliveCount;
    var ratio := destroyed as real / totalCount as real;
    var factor := ratio * ratio;
    var speed := INITIAL_ENEMY_SPEED - (INITIAL_ENEMY_SPEED - MAX_ENEMY_SPEED) * factor;
    if MAX_ENEMY_SPEED >= speed then MAX_ENEMY_SPEED else speed
  }

  /** The fraction of the formation destroyed. */
  function DestroyedRatio(aliveCount: int, totalCount: int): real
    requires totalCount > 0
  {
    (totalCount - aliveCount) as real / totalCount as real
  }

  /** Over exact reals and a meaningful alive count the floor never binds: the
      interval is exactly the eased value, which is 1/20 only when every enemy is gone. */
  lemma EasedWithoutFloor(aliveCount: int, totalCount: int)
    requires 0 <= aliveCount <= totalCount && totalCount > 0
    ensures var ratio := DestroyedRatio(aliveCount, totalCount);
            0.0 <= ratio <= 1.0
            && EnemySpeed(aliveCount, totalCount) == INITIAL_ENEMY_SPEED - (INITIAL_ENEMY_SPEED - MAX_ENEMY_SPEED) * ratio * ratio
    ensures EnemySpeed(aliveCount, totalCount) == MAX_ENEMY_SPEED <==> aliveCount == 0
  {
    var ratio := DestroyedRatio(aliveCount, totalCount);
    RatioBounds(aliveCount, totalCount);
    assert ratio * ratio <= 1.0 by { SquareAtMostOne(ratio); }
    if aliveCount > 0 {
      assert ratio < 1.0 by { RatioBelowOne(aliveCount, totalCount); }
      SquareBelowOne(ratio);
    }
  }

  /** With no kills yet the formation moves every half second. */
  lemma NoKillsInitialSpeed(totalCount: int)
    requires totalCount > 0
    ensures EnemySpeed(totalCount, totalCount) == INITIAL_ENEMY_SPEED
  {
  }

  /** With every enemy destroyed the interval is the floor. */
  lemma AllKilledMaxSpeed(totalCount: int)
    requires totalCount > 0
    ensures EnemySpeed(0, totalCount) == MAX_ENEMY_SPEED
  {
    assert totalCount as real / totalCount as real == 1.0;
  }

  /** Killing enemies never slows the formation down: the interval does not grow as
      the alive count falls. */
  lemma SpeedMonotonic(a1: int, a2: int, totalCount: int)
    requires 0 <= a1 <= a2 <= totalCount && totalCount > 0
    ensures EnemySpeed(a1, totalCount) <= EnemySpeed(a2, totalCount)
  {
    var r1 := DestroyedRatio(a1, totalCount);
    var r2 := DestroyedRatio(a2, totalCount);
    RatioBounds(a1, totalCount);
    RatioBounds(a2, totalCount);
    assert r2 <= r1 by { RatioAntitone(a1, a2, totalCount); }
    SquareMonotonic(r2, r1);
    EasedWithoutFloor(a1, totalCount);
    EasedWithoutFloor(a2, totalCount);
  }

  /** The destroyed fraction lies in [0, 1]. */
  lemma RatioBounds(aliveCount: int, totalCount: int)
    requires 0 <= aliveCount <= totalCount && totalCount > 0
    ensures 0.0 <= DestroyedRatio(aliveCount, totalCount) <= 1.0
  {
    var t := totalCount as real;
    var d := (totalCount - aliveCount) as real;
    assert (d / t) * t == d;
  }

  /** While an enemy is alive the destroyed fraction is below 1. */
  lemma RatioBelowOne(aliveCount: int, totalCount: int)
    requires 0 < aliveCount <= totalCount
    ensures DestroyedRatio(aliveCount, totalCount) < 1.0
  {
    var t := totalCount as real;
    var d := (totalCount - aliveCount) as real;
    assert (d / t) * t == d;
  }

  /** Fewer alive enemies, larger destroyed fraction. */
  lemma RatioAntitone(a1: int, a2: int, totalCount: int)
    requires 0 <= a1 <= a2 <= totalCount && totalCount > 0
    ensures DestroyedRatio(a2, totalCount) <= DestroyedRatio(a1, totalCount)
  {
    var t := totalCount as real;
    var d1 := (totalCount - a1) as real;
    var d2 := (totalCount - a2) as real;
    assert (d1 / t) * t == d1 && (d2 / t) * t == d2;
  }

  // Facts about squares on [0, 1] that the solver does not find alone.

  lemma SquareAtMostOne(x: real)
    requires 0.0 <= x <= 1.0
    ensures x * x <= 1.0
  {
    assert x * x <= x * 1.0;
  }

  lemma SquareBelowOne(x: real)
    requires 0.0 <= x < 1.0
    ensures x * x < 1.0
  {
    assert x * x <= x * 1.0;
  }

  lemma SquareMonotonic(x: real, y: real)
    requires 0.0 <= x <= y
    ensures x * x <= y * y
  {
    assert x * x <= x * y;
    assert x * y <= y * y;
  }
}
