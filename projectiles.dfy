/** The projectile phase of one frame of terminal_invaders.py: every projectile that
    is due climbs one row, leaves the screen above row 1, or destroys the first
    alive enemy on its new cell and is spent. */
module Projectiles {
  import opened Formation

  /** One shot: its cell, its move interval in seconds and the time it last moved. */
  datatype Projectile = Projectile(y: int, x: int, speed: real, lastMoveTime: real)

  const INITIAL_PROJECTILE_SPEED: real := 0.1

  /** The projectiles and the enemies as the projectile phase leaves them. */
  datatype Board = Board(projectiles: seq<Projectile>, enemies: seq<Enemy>)

  /** A projectile moves in this frame when its interval has elapsed. */
  predicate Due(p: Projectile, now: real)
  {
    now - p.lastMoveTime >= p.speed
  }

  /** A due projectile one row up, stamped with the frame time. */
  function Climbed(p: Projectile, now: real): Projectile
  {
    p.(y := p.y - 1, lastMoveTime := now)
  }

  /** The enemy is alive and on cell (`y`, `x`). */
  predicate Hits(e: Enemy, y: int, x: int)
  {
    e.alive && e.y == y && e.x == x
  }

  /** The index of the first alive enemy on cell (`y`, `x`), or -1 if there is none:
      the enemy the scan over `enemies` stops at. */
  function FirstHit(es: seq<Enemy>, y: int, x: int): (k: int)
    ensures -1 <= k < |es|
    ensures k == -1 <==> forall i :: 0 <= i < |es| ==> !Hits(es[i], y, x)
    ensures k >= 0 ==> Hits(es[k], y, x) && forall i :: 0 <= i < k ==> !Hits(es[i], y, x)
  {
    if |es| == 0 then -1
    else if Hits(es[0], y, x) then 0
    else
      var k := FirstHit(es[1..], y, x);
      if k == -1 then -1 else k + 1
  }

  /** The collision scan: walks the enemy array in order and stops at the first alive
      enemy on the projectile's cell. */
  method FindTarget(enemies: array<Enemy>, y: int, x: int) returns (k: int)
    ensures k == FirstHit(enemies[..], y, x)
  {
    k := -1;
    var i := 0;
    while i < enemies.Length
      invariant 0 <= i <= enemies.Length
      invariant forall j :: 0 <= j < i ==> !Hits(enemies[j], y, x)
    {
      var e := enemies[i];
      if e.alive && e.y == y && e.x == x {
        k := i;
        break;
      }
      i := i + 1;
    }
  }

  /** One projectile of the pass, taken against the board the earlier ones left:
      a waiting projectile is kept as it is; a due one climbs, and is then dropped
      above row 1, spent on the first alive enemy of its new cell (which dies), or
      kept. */
  function Resolve(p: Projectile, b: Board, now: real): Board
  {
    if !Due(p, now) then Board(b.projectiles + [p], b.enemies)
    else
      var q := Climbed(p, now);
      if q.y < 1 then b
      else
        var k := FirstHit(b.enemies, q.y, q.x);
        if k == -1 then Board(b.projectiles + [q], b.enemies)
        else Board(b.projectiles, b.enemies[k := b.enemies[k].(alive := false)])
  }

  /** The whole projectile phase over the projectiles `ps` in list order. */
  function ProjectilePass(ps: seq<Projectile>, es: seq<Enemy>, now: real): Board
  {
    if |ps| == 0 then Board([], es)
    else Resolve(ps[|ps| - 1], ProjectilePass(ps[..|ps| - 1], es, now), now)
  }

  /** How many of `ps` are due and would climb above row 1. */
  function Expiring(ps: seq<Projectile>, now: real): (n: nat)
    ensures n <= |ps|
  {
    if |ps| == 0 then 0
    else
      var p := ps[|ps| - 1];
      Expiring(ps[..|ps| - 1], now) + (if Due(p, now) && p.y - 1 < 1 then 1 else 0)
  }

  /** A hit destroys exactly the first alive enemy on the cell: one alive flag goes
      from true to false, positions and every other record stay as they were, and the
      alive count drops by exactly one. */
  lemma HitKillsFirstMatch(es: seq<Enemy>, y: int, x: int)
    requires FirstHit(es, y, x) != -1
    ensures var k := FirstHit(es, y, x);
            var after := es[k := es[k].(alive := false)];
            OnlyKilled(es, after)
            && es[k].alive && !after[k].alive
            && (forall i :: 0 <= i < |es| && i != k ==> after[i] == es[i])
            && AliveCount(after) == AliveCount(es) - 1
  {
    var k := FirstHit(es, y, x);
    KillLowersCount(es, k);
  }

  /** The pass only kills: no enemy moves and no dead enemy comes back. */
  lemma {:induction false} PassOnlyKills(ps: seq<Projectile>, es: seq<Enemy>, now: real)
    ensures OnlyKilled(es, ProjectilePass(ps, es, now).enemies)
  {
    if |ps| > 0 {
      PassOnlyKills(ps[..|ps| - 1], es, now);
    }
  }

  /** One projectile of the pass leaves in exactly one of four ways: a waiting one is
      kept unchanged; a due one that climbs above row 1 is dropped and the board is
      untouched; a due one that lands on an alive enemy is spent and kills exactly the
      first such enemy; any other due one is kept, climbed. */
  lemma ResolveCases(p: Projectile, b: Board, now: real)
    ensures !Due(p, now) ==> Resolve(p, b, now) == Board(b.projectiles + [p], b.enemies)
    ensures Due(p, now) && p.y - 1 < 1 ==> Resolve(p, b, now) == b
    ensures Due(p, now) && p.y - 1 >= 1 ==>
              var k := FirstHit(b.enemies, p.y - 1, p.x);
              var r := Resolve(p, b, now);
              (k == -1 && r == Board(b.projectiles + [Climbed(p, now)], b.enemies))
              || (k >= 0 && r.projectiles == b.projectiles
                  && OnlyKilled(b.enemies, r.enemies)
                  && b.enemies[k].alive && !r.enemies[k].alive
                  && (forall i :: 0 <= i < |b.enemies| && i != k ==> r.enemies[i] == b.enemies[i])
                  && AliveCount(r.enemies) == AliveCount(b.enemies) - 1)
  {
    if Due(p, now) && p.y - 1 >= 1 && FirstHit(b.enemies, p.y - 1, p.x) != -1 {
      HitKillsFirstMatch(b.enemies, p.y - 1, p.x);
    }
  }

  /** Over one projectile, enemies destroyed equal projectiles removed minus
      projectiles expired. */
  lemma ResolveAccounting(p: Projectile, b: Board, now: real)
    ensures var r := Resolve(p, b, now);
            var expires := if Due(p, now) && p.y - 1 < 1 then 1 else 0;
            |r.projectiles| + expires <= |b.projectiles| + 1
            && AliveCount(b.enemies) - AliveCount(r.enemies) == |b.projectiles| + 1 - |r.projectiles| - expires
  {
    ResolveCases(p, b, now);
  }

  /** Every projectile leaves the list in exactly one way: each one removed without
      climbing off the screen destroyed exactly one enemy. */
  lemma {:induction false} PassKillCount(ps: seq<Projectile>, es: seq<Enemy>, now: real)
    ensures var r := ProjectilePass(ps, es, now);
            |r.projectiles| + Expiring(ps, now) <= |ps|
            && AliveCount(es) - AliveCount(r.enemies) == |ps| - |r.projectiles| - Expiring(ps, now)
  {
    if |ps| > 0 {
      var n := |ps| - 1;
      PassKillCount(ps[..n], es, now);
      ResolveAccounting(ps[n], ProjectilePass(ps[..n], es, now), now);
    }
  }

  /** A projectile that is not due is kept, unchanged. */
  lemma {:induction false} PassKeepsWaiting(ps: seq<Projectile>, es: seq<Enemy>, now: real)
    ensures forall i :: 0 <= i < |ps| && !Due(ps[i], now) ==> ps[i] in ProjectilePass(ps, es, now).projectiles
  {
    if |ps| > 0 {
      var n := |ps| - 1;
      PassKeepsWaiting(ps[..n], es, now);
      assert forall i :: 0 <= i < n ==> ps[..n][i] == ps[i];
    }
  }

  /** Every projectile left after the pass is one of `ps`, either waiting and unchanged,
      or due and climbed one row, and still at row 1 or below. */
  lemma {:induction false} PassSurvivors(ps: seq<Projectile>, es: seq<Enemy>, now: real, q: Projectile)
    requires q in ProjectilePass(ps, es, now).projectiles
    ensures exists i :: 0 <= i < |ps| &&
              ((!Due(ps[i], now) && q == ps[i]) || (Due(ps[i], now) && q == Climbed(ps[i], now) && q.y >= 1))
  {
    var n := |ps| - 1;
    var b := ProjectilePass(ps[..n], es, now);
    if q in b.projectiles {
      PassSurvivors(ps[..n], es, now, q);
      var i :| 0 <= i < n &&
        ((!Due(ps[..n][i], now) && q == ps[..n][i]) || (Due(ps[..n][i], now) && q == Climbed(ps[..n][i], now) && q.y >= 1));
      assert ps[..n][i] == ps[i];
    } else {
      assert 0 <= n < |ps|;
    }
  }

  /** The pass over one more projectile is one more `Resolve`. */
  lemma PassSnoc(ps: seq<Projectile>, es: seq<Enemy>, now: real, i: int)
    requires 0 <= i < |ps|
    ensures ProjectilePass(ps[..i + 1], es, now) == Resolve(ps[i], ProjectilePass(ps[..i], es, now), now)
  {
    assert ps[..i + 1][..i] == ps[..i];
  }
}
