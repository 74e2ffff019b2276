/** One frame of the game loop of terminal_invaders.py, without rendering: the
    projectile phase, the formation phase and the player's input, in that order. */
module Game {
  import opened Formation
  import opened Motion
  import opened Difficulty
  import opened Setup
  import opened Projectiles

  /** The key read for this frame; `NoKey` when none is pending. */
  datatype Key = Left | Right | Quit | Fire | Other | NoKey

  const FIRE_COOLDOWN: real := 0.5
  const RIGHT_EDGE_OFFSET: int := 2

  /** Everything one frame reads and writes. */
  datatype World = World(
    enemies: seq<Enemy>,
    projectiles: seq<Projectile>,
    playerX: int,
    heading: Heading,
    enemySpeed: real,
    lastMoveTime: real,
    lastFireTime: real,
    gameOver: bool)

  /** What holds of the game state between frames: the player in its lane, a
      direction of +1 or -1, the enemy count fixed, the movement interval matching the
      alive count, and the game over once no enemy is alive. */
  predicate Sound(w: World, width: int, totalEnemyCount: int)
  {
    |w.enemies| == totalEnemyCount > 0
    && 0 <= w.playerX <= width - RIGHT_EDGE_OFFSET
    && (w.heading.direction == 1 || w.heading.direction == -1)
    && w.enemySpeed == EnemySpeed(AliveCount(w.enemies), totalEnemyCount)
    && (AliveCount(w.enemies) == 0 ==> w.gameOver)
  }

  /** The state `main` builds before its first frame; `fireClock` and `moveClock` are
      the two clock readings it takes for `last_fire_time` and `last_move_time`. */
  function InitialWorld(width: int, fireClock: real, moveClock: real): World
    requires width >= 3
  {
    World(InitialEnemies(width), [], PlayerStart(width), INITIAL_HEADING,
          INITIAL_ENEMY_SPEED, moveClock, fireClock, false)
  }

  /** The projectile phase: the pass over the projectiles, then, if it destroyed any
      enemy, the interval recomputed from the new alive count and the game won if none
      is left. */
  function ProjectilePhase(w: World, totalEnemyCount: int, now: real): World
    requires totalEnemyCount > 0
  {
    var b := ProjectilePass(w.projectiles, w.enemies, now);
    var alive := AliveCount(b.enemies);
    var killed := alive < AliveCount(w.enemies);
    w.(enemies := b.enemies, projectiles := b.projectiles,
       enemySpeed := if killed then EnemySpeed(alive, totalEnemyCount) else w.enemySpeed,
       gameOver := w.gameOver || (killed && alive == 0))
  }

  /** The formation moves when more than `enemySpeed` seconds have passed since its
      last move and some enemy is alive. */
  predicate FormationDue(w: World, now: real)
  {
    now - w.lastMoveTime > w.enemySpeed && AliveCount(w.enemies) > 0
  }

  /** The formation phase: one sweep when due, the move time stamped, and the game
      lost when the lowest alive enemy has reached row `height - 1`. */
  function FormationPhase(w: World, width: int, height: int, now: real): World
  {
    if !FormationDue(w, now) then w
    else
      var s := Sweep(Swarm(w.enemies, w.heading), width);
      var bottomMost := MaxOf(0, AliveCoords(s.enemies, Row));
      w.(enemies := s.enemies, heading := s.heading, lastMoveTime := now,
         gameOver := w.gameOver || bottomMost >= height - 1)
  }

  /** The input phase: a step left or right within the lane, quitting, or firing a
      projectile from the row above the player once the cooldown has passed;
      `fireTime` is the clock reading stamped on a new projectile. */
  function InputPhase(w: World, key: Key, width: int, height: int, now: real, fireTime: real): World
  {
    if key == Left && w.playerX > LEFT_EDGE then w.(playerX := w.playerX - 1)
    else if key == Right && w.playerX < width - RIGHT_EDGE_OFFSET then w.(playerX := w.playerX + 1)
    else if key == Quit then w.(gameOver := true)
    else if key == Fire then
      if now - w.lastFireTime >= FIRE_COOLDOWN then
        w.(projectiles := w.projectiles + [Projectile(height - 2, w.playerX, INITIAL_PROJECTILE_SPEED, fireTime)],
           lastFireTime := now)
      else w
    else w
  }

  /** One whole frame. */
  function Frame(w: World, key: Key, width: int, height: int, totalEnemyCount: int,
                 now: real, fireTime: real): World
    requires totalEnemyCount > 0
  {
    InputPhase(FormationPhase(ProjectilePhase(w, totalEnemyCount, now), width, height, now),
               key, width, height, now, fireTime)
  }

  /** The formation phase when it is due, in terms of the sweep's outcome. */
  lemma FormationPhaseMoved(w: World, width: int, height: int, now: real,
                            after: seq<Enemy>, h': Heading, bottomMost: int)
    requires FormationDue(w, now)
    requires Sweep(Swarm(w.enemies, w.heading), width) == Swarm(after, h')
    requires bottomMost == MaxOf(0, AliveCoords(after, Row))
    ensures FormationPhase(w, width, height, now)
         == w.(enemies := after, heading := h', lastMoveTime := now, gameOver := w.gameOver || bottomMost >= height - 1)
  {
  }

  /** The initial state is sound, and on screens of four or more columns its
      formation is contained. */
  lemma InitialWorldSound(width: int, fireClock: real, moveClock: real)
    requires width >= 3
    ensures Sound(InitialWorld(width, fireClock, moveClock), width, |InitialEnemies(width)|)
    ensures width >= 4 ==> Contained(Swarm(InitialWorld(width, fireClock, moveClock).enemies, INITIAL_HEADING), width)
  {
    InitialFormation(width);
    NoKillsInitialSpeed(|InitialEnemies(width)|);
    if width >= 4 {
      InitialSwarmContained(width);
    }
  }

  /** The projectile phase keeps the state sound, and wins the game (from a running
      game) exactly when it leaves no enemy alive. */
  lemma ProjectilePhaseSound(w: World, width: int, totalEnemyCount: int, now: real)
    requires Sound(w, width, totalEnemyCount)
    ensures Sound(ProjectilePhase(w, totalEnemyCount, now), width, totalEnemyCount)
    ensures !w.gameOver ==>
              (ProjectilePhase(w, totalEnemyCount, now).gameOver <==> AliveCount(ProjectilePhase(w, totalEnemyCount, now).enemies) == 0)
  {
    PassOnlyKills(w.projectiles, w.enemies, now);
    PassKillCount(w.projectiles, w.enemies, now);
  }

  /** The formation phase moves the formation by one sweep exactly when it is due, and
      then loses the game exactly when some alive enemy has reached the bottom row; it
      changes no alive flag, so the state stays sound. */
  lemma FormationPhaseSound(w: World, width: int, height: int, totalEnemyCount: int, now: real)
    requires Sound(w, width, totalEnemyCount) && height >= 2
    ensures var r := FormationPhase(w, width, height, now);
            Sound(r, width, totalEnemyCount)
            && (FormationDue(w, now) ==> Swarm(r.enemies, r.heading) == Sweep(Swarm(w.enemies, w.heading), width))
            && (!FormationDue(w, now) ==> r == w)
            && (!w.gameOver && FormationDue(w, now) ==>
                  (r.gameOver <==> exists i :: 0 <= i < |r.enemies| && r.enemies[i].alive && r.enemies[i].y >= height - 1))
  {
    if FormationDue(w, now) {
      var s := Sweep(Swarm(w.enemies, w.heading), width);
      MoveAllDelta(w.enemies, w.heading);
      SameFlagsSameCount(w.enemies, s.enemies);
      BottomReachedIff(s.enemies, height);
    }
  }

  /** The input phase keeps the player in the lane `[0, width - 2]`, and fires exactly
      one projectile, from the row above the player and with the initial speed, when
      the cooldown has passed; it never touches the enemies. */
  lemma InputPhaseSound(w: World, key: Key, width: int, height: int, totalEnemyCount: int, now: real, fireTime: real)
    requires Sound(w, width, totalEnemyCount)
    ensures var r := InputPhase(w, key, width, height, now, fireTime);
            Sound(r, width, totalEnemyCount)
            && r.enemies == w.enemies && r.heading == w.heading
            && (key == Fire && now - w.lastFireTime >= FIRE_COOLDOWN ==>
                  r.projectiles == w.projectiles + [Projectile(height - 2, w.playerX, INITIAL_PROJECTILE_SPEED, fireTime)]
                  && r.lastFireTime == now)
            && (key != Fire || now - w.lastFireTime < FIRE_COOLDOWN ==>
                  r.projectiles == w.projectiles && r.lastFireTime == w.lastFireTime)
            && (key == Quit ==> r.gameOver)
            && (w.gameOver ==> r.gameOver)
  {
  }

  /** A frame keeps the state sound. */
  lemma FrameSound(w: World, key: Key, width: int, height: int, totalEnemyCount: int, now: real, fireTime: real)
    requires Sound(w, width, totalEnemyCount) && height >= 2
    ensures Sound(Frame(w, key, width, height, totalEnemyCount, now, fireTime), width, totalEnemyCount)
  {
    var w1 := ProjectilePhase(w, totalEnemyCount, now);
    ProjectilePhaseSound(w, width, totalEnemyCount, now);
    var w2 := FormationPhase(w1, width, height, now);
    FormationPhaseSound(w1, width, height, totalEnemyCount, now);
    InputPhaseSound(w2, key, width, height, totalEnemyCount, now, fireTime);
  }

  /** A contained formation stays contained through a frame: the projectile phase only
      kills and the formation phase is one sweep at most. */
  lemma FrameKeepsContained(w: World, key: Key, width: int, height: int, totalEnemyCount: int, now: real, fireTime: real)
    requires Sound(w, width, totalEnemyCount) && height >= 2
    requires Contained(Swarm(w.enemies, w.heading), width)
    ensures var r := Frame(w, key, width, height, totalEnemyCount, now, fireTime);
            Contained(Swarm(r.enemies, r.heading), width)
  {
    var w1 := ProjectilePhase(w, totalEnemyCount, now);
    PassOnlyKills(w.projectiles, w.enemies, now);
    ContainedAfterKills(Swarm(w.enemies, w.heading), w1.enemies, width);
    ProjectilePhaseSound(w, width, totalEnemyCount, now);
    var w2 := FormationPhase(w1, width, height, now);
    FormationPhaseSound(w1, width, height, totalEnemyCount, now);
    if FormationDue(w1, now) {
      SweepKeepsContained(Swarm(w1.enemies, w1.heading), width);
    }
    InputPhaseSound(w2, key, width, height, totalEnemyCount, now, fireTime);
  }

  /** `len([enemy for enemy in enemies if enemy["alive"]])`. */
  method CountAlive(enemies: array<Enemy>) returns (n: nat)
    ensures n == AliveCount(enemies[..])
  {
    n := 0;
    var i := 0;
    while i < enemies.Length
      invariant 0 <= i <= enemies.Length
      invariant n == AliveCount(enemies[..i])
    {
      assert enemies[..i + 1][..i] == enemies[..i];
      if enemies[i].alive {
        n := n + 1;
      }
      i := i + 1;
    }
    assert enemies[..i] == enemies[..];
  }

  /** The collision scan and its kill: the first alive enemy on the projectile's cell,
      if any, is destroyed and nothing else changes. */
  method Strike(enemies: array<Enemy>, p: Projectile) returns (hit: bool)
    modifies enemies
    ensures hit == (FirstHit(old(enemies[..]), p.y, p.x) != -1)
    ensures hit ==> AliveCount(enemies[..]) == AliveCount(old(enemies[..])) - 1
    ensures var k := FirstHit(old(enemies[..]), p.y, p.x);
            enemies[..] == if k == -1 then old(enemies[..]) else old(enemies[..])[k := old(enemies[k]).(alive := false)]
  {
    var k := FindTarget(enemies, p.y, p.x);
    hit := k != -1;
    if hit {
      HitKillsFirstMatch(enemies[..], p.y, p.x);
      enemies[k] := enemies[k].(alive := false);
    }
  }

  /** Iteration `i` of the projectile loop over the copy `ps`, on the live list `list0`
      whose first `j0` entries are the projectiles the earlier iterations kept: a due
      projectile climbs one row and is stamped in place, then is removed when it leaves
      the screen above row 1 or strikes an enemy; a kill recomputes the interval and
      checks for a win. */
  method AdvanceOne(enemies: array<Enemy>, ps: seq<Projectile>, i: int, list0: seq<Projectile>, j0: int,
                    now: real, totalEnemyCount: int, speed0: real, over0: bool,
                    ghost es: seq<Enemy>, ghost kept0: seq<Projectile>)
    returns (list: seq<Projectile>, j: int, speed: real, over: bool, ghost kept: seq<Projectile>)
    requires 0 <= i < |ps| && totalEnemyCount > 0
    requires j0 == |kept0| && list0 == kept0 + ps[i..]
    requires ProjectilePass(ps[..i], es, now) == Board(kept0, enemies[..])
    modifies enemies
    ensures j == |kept| && list == kept + ps[i + 1..]
    ensures ProjectilePass(ps[..i + 1], es, now) == Board(kept, enemies[..])
    ensures AliveCount(enemies[..]) <= AliveCount(old(enemies[..]))
    ensures speed == if AliveCount(enemies[..]) < AliveCount(old(enemies[..]))
                     then EnemySpeed(AliveCount(enemies[..]), totalEnemyCount) else speed0
    ensures over == (over0 || (AliveCount(enemies[..]) < AliveCount(old(enemies[..])) && AliveCount(enemies[..]) == 0))
  {
    PassSnoc(ps, es, now, i);
    var p := ps[i];
    list, j, speed, over, kept := list0, j0 + 1, speed0, over0, kept0 + [p];
    SeamKeep(kept0, ps, i, p);
    if now - p.lastMoveTime >= p.speed {
      p := p.(y := p.y - 1, lastMoveTime := now);
      SeamKeep(kept0, ps, i, p);
      list, kept := list0[j0 := p], kept0 + [p];
      if p.y < 1 {
        SeamRemove(kept0, ps, i, p);
        list, j, kept := list[..j0] + list[j0 + 1..], j0, kept0;
      } else {
        var hit := Strike(enemies, p);
        if hit {
          SeamRemove(kept0, ps, i, p);
          list, j, kept := list[..j0] + list[j0 + 1..], j0, kept0;
          var alive := CountAlive(enemies);
          if alive == 0 {
            over := true;
          }
          speed := EnemySpeed(alive, totalEnemyCount);
        }
      }
    }
  }

  /** The projectile loop: walks a copy `ps` of the projectile list and updates the
      list itself, moving a due projectile in place and removing it when it leaves the
      screen or hits an enemy; each kill recomputes the interval and checks for a win. */
  method MoveProjectiles(enemies: array<Enemy>, ps: seq<Projectile>, now: real, totalEnemyCount: int,
                         speed0: real, over0: bool)
    returns (list: seq<Projectile>, speed: real, over: bool)
    requires totalEnemyCount > 0
    modifies enemies
    ensures var r := ProjectilePass(ps, old(enemies[..]), now);
            var killed := AliveCount(r.enemies) < AliveCount(old(enemies[..]));
            list == r.projectiles && enemies[..] == r.enemies
            && speed == (if killed then EnemySpeed(AliveCount(r.enemies), totalEnemyCount) else speed0)
            && over == (over0 || (killed && AliveCount(r.enemies) == 0))
  {
    ghost var es := enemies[..];
    ghost var before := AliveCount(es);
    list, speed, over := ps, speed0, over0;
    ghost var kept: seq<Projectile> := [];
    ghost var alive := before;
    var i, j := 0, 0;
    while i < |ps|
      invariant 0 <= i <= |ps| && j == |kept|
      invariant list == kept + ps[i..]
      invariant ProjectilePass(ps[..i], es, now) == Board(kept, enemies[..])
      invariant alive == AliveCount(enemies[..]) <= before
      invariant speed == if alive < before then EnemySpeed(alive, totalEnemyCount) else speed0
      invariant over == (over0 || (alive < before && alive == 0))
    {
      list, j, speed, over, kept := AdvanceOne(enemies, ps, i, list, j, now, totalEnemyCount, speed, over, es, kept);
      alive := AliveCount(enemies[..]);
      i := i + 1;
    }
    assert ps[..i] == ps;
  }

  /** Overwriting the element at the seam of `kept + ps[i..]` with `p`. */
  lemma SeamKeep(kept: seq<Projectile>, ps: seq<Projectile>, i: int, p: Projectile)
    requires 0 <= i < |ps|
    ensures (kept + ps[i..])[|kept| := p] == kept + [p] + ps[i + 1..]
  {
  }

  /** Removing the element `p` at the seam of `kept + [p] + ps[i + 1..]`. */
  lemma SeamRemove(kept: seq<Projectile>, ps: seq<Projectile>, i: int, p: Projectile)
    requires 0 <= i < |ps|
    ensures var l := kept + [p] + ps[i + 1..]; l[..|kept|] + l[|kept| + 1..] == kept + ps[i + 1..]
  {
    var l := kept + [p] + ps[i + 1..];
    assert l[..|kept|] == kept;
    assert l[|kept| + 1..] == ps[i + 1..];
  }

  /** The formation phase on the loop's variables: when more than `speed` seconds have
      passed since the last move and some enemy is alive, `move_enemies` on the enemy
      array, the move time stamped, and the loss test on the returned bottom row. `w` is
      the state the variables belong to. */
  method MoveFormation(enemies: array<Enemy>, h0: Heading, speed: real, lastMove0: real, over0: bool,
                       now: real, width: int, height: int, ghost w: World)
    returns (h: Heading, lastMove: real, over: bool)
    requires w.enemies == enemies[..] && w.heading == h0 && w.enemySpeed == speed
    requires w.lastMoveTime == lastMove0 && w.gameOver == over0
    modifies enemies
    ensures FormationPhase(w, width, height, now)
         == w.(enemies := enemies[..], heading := h, lastMoveTime := lastMove, gameOver := over)
  {
    h, lastMove, over := h0, lastMove0, over0;
    if now - lastMove0 > speed {
      var alive := CountAlive(enemies);
      if alive > 0 {
        var leftMost, rightMost, bottomMost;
        leftMost, rightMost, bottomMost, h := MoveEnemies(enemies, h0, width);
        FormationPhaseMoved(w, width, height, now, enemies[..], h, bottomMost);
        lastMove := now;
        if bottomMost >= height - 1 {
          over := true;
        }
      }
    }
  }

  /** The game as `main` keeps it in local variables. The enemy records live in one
      array that is updated in place; the list of alive enemies the source keeps beside
      it always holds exactly the alive records of that array, so it is recomputed
      from the array where the source reads it. */
  class Game {
    const width: int
    const height: int
    const totalEnemyCount: int
    const playerY: int
    const enemies: array<Enemy>
    var projectiles: seq<Projectile>
    var playerX: int
    var enemyDirection: int
    var moveDown: bool
    var enemySpeed: real
    var lastMoveTime: real
    var lastFireTime: real
    var gameOver: bool

    ghost function State(): World
      reads this, enemies
    {
      World(enemies[..], projectiles, playerX, Heading(enemyDirection, moveDown),
            enemySpeed, lastMoveTime, lastFireTime, gameOver)
    }

    ghost predicate Valid()
      reads this, enemies
    {
      width >= 3 && height >= 4 && playerY == height - 1
      && Sound(State(), width, totalEnemyCount)
    }

    /** The set-up part of `main` on a `width` x `height` screen that passed the size
        check; `fireClock` and `moveClock` are its two clock readings. */
    constructor(width: int, height: int, fireClock: real, moveClock: real)
      requires width >= 3 && height >= 4
      ensures Valid() && fresh(enemies)
      ensures this.width == width && this.height == height
      ensures totalEnemyCount == |InitialEnemies(width)|
      ensures State() == InitialWorld(width, fireClock, moveClock)
    {
      this.width := width;
      this.height := height;
      playerY := height - 1;
      var es := InitialEnemies(width);
      enemies := new Enemy[|es|](i requires 0 <= i < |es| => es[i]);
      totalEnemyCount := |es|;
      projectiles := [];
      playerX := width / 2;
      enemyDirection := 1;
      moveDown := false;
      enemySpeed := INITIAL_ENEMY_SPEED;
      lastMoveTime := moveClock;
      lastFireTime := fireClock;
      gameOver := false;
      new;
      assert enemies[..] == es;
      InitialWorldSound(width, fireClock, moveClock);
    }

    /** The projectile phase of this frame. */
    method AdvanceProjectiles(now: real)
      requires Valid()
      modifies this, enemies
      ensures Valid()
      ensures State() == ProjectilePhase(old(State()), totalEnemyCount, now)
    {
      assert Sound(ProjectilePhase(State(), totalEnemyCount, now), width, totalEnemyCount) by {
        ProjectilePhaseSound(State(), width, totalEnemyCount, now);
      }
      projectiles, enemySpeed, gameOver :=
        MoveProjectiles(enemies, projectiles, now, totalEnemyCount, enemySpeed, gameOver);
    }

    /** The formation phase: when due and some enemy is alive, `move_enemies` on the
        enemy array, then the loss test on the returned bottom row. */
    method AdvanceFormation(now: real)
      requires Valid()
      modifies this, enemies
      ensures Valid()
      ensures State() == FormationPhase(old(State()), width, height, now)
    {
      ghost var w := State();
      assert Sound(FormationPhase(w, width, height, now), width, totalEnemyCount) by {
        FormationPhaseSound(w, width, height, totalEnemyCount, now);
      }
      var h;
      h, lastMoveTime, gameOver :=
        MoveFormation(enemies, Heading(enemyDirection, moveDown), enemySpeed, lastMoveTime, gameOver,
                      now, width, height, w);
      enemyDirection, moveDown := h.direction, h.moveDown;
      assert State() == FormationPhase(w, width, height, now);
    }

    /** The input phase for the key read this frame; `fireTime` is the clock reading
        stamped on a new projectile. */
    method HandleKey(key: Key, now: real, fireTime: real)
      requires Valid()
      modifies this
      ensures Valid()
      ensures State() == InputPhase(old(State()), key, width, height, now, fireTime)
    {
      ghost var w := State();
      assert Sound(InputPhase(w, key, width, height, now, fireTime), width, totalEnemyCount) by {
        InputPhaseSound(w, key, width, height, totalEnemyCount, now, fireTime);
      }
      if key == Left && playerX > LEFT_EDGE {
        playerX := playerX - 1;
      } else if key == Right && playerX < width - RIGHT_EDGE_OFFSET {
        playerX := playerX + 1;
      } else if key == Quit {
        gameOver := true;
      } else if key == Fire {
        if now - lastFireTime >= FIRE_COOLDOWN {
          projectiles := projectiles + [Projectile(playerY - 1, playerX, INITIAL_PROJECTILE_SPEED, fireTime)];
          lastFireTime := now;
        }
      }
      assert State() == InputPhase(w, key, width, height, now, fireTime);
    }

    /** One pass of the `while not game_over` loop. */
    method Step(now: real, key: Key, fireTime: real)
      requires Valid() && !gameOver
      modifies this, enemies
      ensures Valid()
      ensures State() == Frame(old(State()), key, width, height, totalEnemyCount, now, fireTime)
    {
      AdvanceProjectiles(now);
      AdvanceFormation(now);
      HandleKey(key, now, fireTime);
    }
  }
}
