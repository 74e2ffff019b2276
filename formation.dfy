/** The enemy formation of terminal_invaders.py: enemy records, the sweep that
    moves every alive enemy by one cell (`move_enemies`), and its edge policy. */
module Formation {

  /** One enemy ship. A destroyed enemy stays in the collection with `alive` false. */
  datatype Enemy = Enemy(y: int, x: int, alive: bool)

  /** The formation's shared direction of travel (+1 right, -1 left) and the
      pending-descent flag `move_down`. */
  datatype Heading = Heading(direction: int, moveDown: bool)

  /** The enemy collection together with its heading: the state one sweep rewrites. */
  datatype Swarm = Swarm(enemies: seq<Enemy>, heading: Heading)

  /** Which coordinate of an enemy a running extreme is taken over. */
  datatype Axis = Row | Column

  const LEFT_EDGE: int := 0

  function Coord(e: Enemy, a: Axis): int
  {
    match a
    case Row => e.y
    case Column => e.x
  }

  /** `len(alive_enemies)`: how many records are still alive. */
  function AliveCount(s: seq<Enemy>): (n: nat)
    ensures n <= |s|
    ensures n == 0 <==> forall i :: 0 <= i < |s| ==> !s[i].alive
    ensures n == |s| <==> forall i :: 0 <= i < |s| ==> s[i].alive
  {
    if |s| == 0 then 0
    else AliveCount(s[..|s| - 1]) + (if s[|s| - 1].alive then 1 else 0)
  }

  /** Records with the same alive flags have the same alive count. */
  lemma {:induction false} SameFlagsSameCount(a: seq<Enemy>, b: seq<Enemy>)
    requires |a| == |b|
    requires forall i :: 0 <= i < |a| ==> a[i].alive == b[i].alive
    ensures AliveCount(a) == AliveCount(b)
  {
    if |a| > 0 {
      SameFlagsSameCount(a[..|a| - 1], b[..|b| - 1]);
    }
  }

  /** Clearing the flag of one alive record lowers the alive count by exactly one. */
  lemma {:induction false} KillLowersCount(s: seq<Enemy>, k: int)
    requires 0 <= k < |s| && s[k].alive
    ensures AliveCount(s[k := s[k].(alive := false)]) == AliveCount(s) - 1
  {
    var t := s[k := s[k].(alive := false)];
    var n := |s| - 1;
    if k == n {
      assert t[..n] == s[..n];
    } else {
      assert t[..n] == s[..n][k := s[k].(alive := false)];
      KillLowersCount(s[..n], k);
    }
  }

  /** The chosen coordinate of every alive record, in collection order. */
  function AliveCoords(s: seq<Enemy>, a: Axis): seq<int>
  {
    if |s| == 0 then []
    else AliveCoords(s[..|s| - 1], a) + (if s[|s| - 1].alive then [Coord(s[|s| - 1], a)] else [])
  }

  /** The coordinate of every alive record is listed. */
  lemma {:induction false} AliveCoordsCover(s: seq<Enemy>, a: Axis)
    ensures forall i :: 0 <= i < |s| && s[i].alive ==> Coord(s[i], a) in AliveCoords(s, a)
  {
    if |s| > 0 {
      var n := |s| - 1;
      AliveCoordsCover(s[..n], a);
      assert forall i :: 0 <= i < n ==> s[..n][i] == s[i];
    }
  }

  /** Every listed coordinate belongs to some alive record. */
  lemma {:induction false} AliveCoordsSource(s: seq<Enemy>, a: Axis, v: int)
    requires v in AliveCoords(s, a)
    ensures exists i :: 0 <= i < |s| && s[i].alive && Coord(s[i], a) == v
  {
    var n := |s| - 1;
    if v in AliveCoords(s[..n], a) {
      AliveCoordsSource(s[..n], a, v);
      var i :| 0 <= i < n && s[..n][i].alive && Coord(s[..n][i], a) == v;
      assert s[i] == s[..n][i];
    }
  }

  /** `init` folded with `min` over `cs` from left to right: the sweep's running `left_most`. */
  function MinOf(init: int, cs: seq<int>): int
  {
    if |cs| == 0 then init
    else
      var m := MinOf(init, cs[..|cs| - 1]);
      if cs[|cs| - 1] < m then cs[|cs| - 1] else m
  }

  /** The fold is the least of `init` and the listed values, and is one of them. */
  lemma {:induction false} MinOfIsLeast(init: int, cs: seq<int>)
    ensures MinOf(init, cs) <= init && forall v :: v in cs ==> MinOf(init, cs) <= v
    ensures MinOf(init, cs) == init || MinOf(init, cs) in cs
  {
    if |cs| > 0 {
      MinOfIsLeast(init, cs[..|cs| - 1]);
      assert cs == cs[..|cs| - 1] + [cs[|cs| - 1]];
    }
  }

  /** `init` folded with `max` over `cs` from left to right: the running `right_most` and `bottom_most`. */
  function MaxOf(init: int, cs: seq<int>): int
  {
    if |cs| == 0 then init
    else
      var m := MaxOf(init, cs[..|cs| - 1]);
      if cs[|cs| - 1] > m then cs[|cs| - 1] else m
  }

  /** The fold is the greatest of `init` and the listed values, and is one of them. */
  lemma {:induction false} MaxOfIsGreatest(init: int, cs: seq<int>)
    ensures MaxOf(init, cs) >= init && forall v :: v in cs ==> MaxOf(init, cs) >= v
    ensures MaxOf(init, cs) == init || MaxOf(init, cs) in cs
  {
    if |cs| > 0 {
      MaxOfIsGreatest(init, cs[..|cs| - 1]);
      assert cs == cs[..|cs| - 1] + [cs[|cs| - 1]];
    }
  }

  /** One record after one sweep: alive ones move one cell, dead ones are left alone. */
  function Shifted(e: Enemy, h: Heading): Enemy
  {
    if !e.alive then e
    else if h.moveDown then e.(y := e.y + 1)
    else e.(x := e.x + h.direction)
  }

  /** The whole collection after one sweep. */
  function MoveAll(s: seq<Enemy>, h: Heading): seq<Enemy>
  {
    if |s| == 0 then [] else MoveAll(s[..|s| - 1], h) + [Shifted(s[|s| - 1], h)]
  }

  /** The sweep rewrites each record independently of the others. */
  lemma {:induction false} MoveAllPointwise(s: seq<Enemy>, h: Heading)
    ensures |MoveAll(s, h)| == |s|
    ensures forall i :: 0 <= i < |s| ==> MoveAll(s, h)[i] == Shifted(s[i], h)
  {
    if |s| > 0 {
      MoveAllPointwise(s[..|s| - 1], h);
    }
  }

  /** One sweep moves every alive record by exactly one cell, down one row when a
      descent is pending and sideways by the direction otherwise, never both, and
      leaves dead records and every alive flag as they were. */
  lemma MoveAllDelta(s: seq<Enemy>, h: Heading)
    ensures |MoveAll(s, h)| == |s|
    ensures forall i :: 0 <= i < |s| ==> MoveAll(s, h)[i].alive == s[i].alive
    ensures forall i :: 0 <= i < |s| && !s[i].alive ==> MoveAll(s, h)[i] == s[i]
    ensures forall i :: 0 <= i < |s| && s[i].alive && h.moveDown ==>
              MoveAll(s, h)[i].y == s[i].y + 1 && MoveAll(s, h)[i].x == s[i].x
    ensures forall i :: 0 <= i < |s| && s[i].alive && !h.moveDown ==>
              MoveAll(s, h)[i].x == s[i].x + h.direction && MoveAll(s, h)[i].y == s[i].y
  {
    MoveAllPointwise(s, h);
  }

  /** The edge test on the post-move extremes; equality, not a range test. */
  predicate AtEdge(leftMost: int, rightMost: int, width: int)
  {
    leftMost == LEFT_EDGE || rightMost == width - 1
  }

  /** The edge policy: at an edge a sideways formation starts a descent, and a
      descending one reverses and resumes sideways motion. */
  function Turn(h: Heading, atEdge: bool): (r: Heading)
    ensures !atEdge ==> r == h
    ensures atEdge && !h.moveDown ==> r.moveDown && r.direction == h.direction
    ensures atEdge && h.moveDown ==> !r.moveDown && r.direction == -h.direction
  {
    if !atEdge then h
    else if h.moveDown then Heading(-h.direction, false)
    else Heading(h.direction, true)
  }

  /** One call of `move_enemies` on the alive records, as a value. */
  function Sweep(f: Swarm, width: int): Swarm
  {
    var moved := MoveAll(f.enemies, f.heading);
    var cs := AliveCoords(moved, Column);
    Swarm(moved, Turn(f.heading, AtEdge(MinOf(width, cs), MaxOf(0, cs), width)))
  }

  /** `k` successive sweeps. */
  function SweepN(f: Swarm, width: int, k: nat): Swarm
  {
    if k == 0 then f else Sweep(SweepN(f, width, k - 1), width)
  }

  /** The running `left_most` over the alive records of `s`, started at `init`: no
      greater than `init` or any alive record's coordinate, and equal to one of them. */
  lemma MinOfAlive(init: int, s: seq<Enemy>, a: Axis)
    ensures MinOf(init, AliveCoords(s, a)) <= init
    ensures forall j :: 0 <= j < |s| && s[j].alive ==> MinOf(init, AliveCoords(s, a)) <= Coord(s[j], a)
    ensures MinOf(init, AliveCoords(s, a)) == init
         || exists j :: 0 <= j < |s| && s[j].alive && Coord(s[j], a) == MinOf(init, AliveCoords(s, a))
  {
    var cs := AliveCoords(s, a);
    MinOfIsLeast(init, cs);
    AliveCoordsCover(s, a);
    if MinOf(init, cs) != init {
      AliveCoordsSource(s, a, MinOf(init, cs));
    }
  }

  /** The running `right_most` / `bottom_most` over the alive records of `s`, started
      at `init`: no less than `init` or any alive record's coordinate, and equal to one of them. */
  lemma MaxOfAlive(init: int, s: seq<Enemy>, a: Axis)
    ensures MaxOf(init, AliveCoords(s, a)) >= init
    ensures forall j :: 0 <= j < |s| && s[j].alive ==> MaxOf(init, AliveCoords(s, a)) >= Coord(s[j], a)
    ensures MaxOf(init, AliveCoords(s, a)) == init
         || exists j :: 0 <= j < |s| && s[j].alive && Coord(s[j], a) == MaxOf(init, AliveCoords(s, a))
  {
    var cs := AliveCoords(s, a);
    MaxOfIsGreatest(init, cs);
    AliveCoordsCover(s, a);
    if MaxOf(init, cs) != init {
      AliveCoordsSource(s, a, MaxOf(init, cs));
    }
  }

  /** A value that is the least of `init` and the alive coordinates, and one of them,
      is the fold `MinOf`: the sweep's accumulator and the specification agree. */
  lemma LeastIsMinOf(m: int, init: int, s: seq<Enemy>, a: Axis)
    requires m <= init && forall j :: 0 <= j < |s| && s[j].alive ==> m <= Coord(s[j], a)
    requires m == init || exists j :: 0 <= j < |s| && s[j].alive && Coord(s[j], a) == m
    ensures m == MinOf(init, AliveCoords(s, a))
  {
    MinOfAlive(init, s, a);
  }

  /** A value that is the greatest of `init` and the alive coordinates, and one of them, is the fold `MaxOf`. */
  lemma GreatestIsMaxOf(m: int, init: int, s: seq<Enemy>, a: Axis)
    requires m >= init && forall j :: 0 <= j < |s| && s[j].alive ==> m >= Coord(s[j], a)
    requires m == init || exists j :: 0 <= j < |s| && s[j].alive && Coord(s[j], a) == m
    ensures m == MaxOf(init, AliveCoords(s, a))
  {
    MaxOfAlive(init, s, a);
  }

  /** With no alive record at column 0 or `width - 1`, the edge test does not fire. */
  lemma NoEdgeNoTurn(s: seq<Enemy>, width: int)
    requires width >= 2
    requires forall i :: 0 <= i < |s| && s[i].alive ==> s[i].x != LEFT_EDGE && s[i].x != width - 1
    ensures !AtEdge(MinOf(width, AliveCoords(s, Column)), MaxOf(0, AliveCoords(s, Column)), width)
  {
    MinOfAlive(width, s, Column);
    MaxOfAlive(0, s, Column);
  }

  /** On the grid, the edge test fires exactly when some alive record sits in
      column 0 or in column `width - 1`. */
  lemma EdgeIffEnemyOnEdge(s: seq<Enemy>, width: int)
    requires width >= 2
    requires forall i :: 0 <= i < |s| && s[i].alive ==> 0 <= s[i].x < width
    ensures AtEdge(MinOf(width, AliveCoords(s, Column)), MaxOf(0, AliveCoords(s, Column)), width)
        <==> exists i :: 0 <= i < |s| && s[i].alive && (s[i].x == LEFT_EDGE || s[i].x == width - 1)
  {
    MinOfAlive(width, s, Column);
    MaxOfAlive(0, s, Column);
  }

  /** The loss test `bottom_most >= height - 1` holds exactly when some alive
      record has reached the last row. */
  lemma BottomReachedIff(s: seq<Enemy>, height: int)
    requires height >= 2
    ensures MaxOf(0, AliveCoords(s, Row)) >= height - 1
        <==> exists i :: 0 <= i < |s| && s[i].alive && s[i].y >= height - 1
  {
    MaxOfAlive(0, s, Row);
  }

  /** Column `x` is on the grid and one more sideways step in direction `dir` keeps it there. */
  predicate Clear(x: int, dir: int, width: int)
  {
    0 <= x < width && (dir == 1 ==> x <= width - 2) && (dir == -1 ==> x >= 1)
  }

  /** The direction of the next sideways step: a pending descent reverses it. */
  function NextSideways(h: Heading): int
  {
    if h.moveDown then -h.direction else h.direction
  }

  /** Every alive record is on the grid, and the formation's next sideways step
      cannot carry any of them off it. */
  predicate Contained(f: Swarm, width: int)
  {
    (f.heading.direction == 1 || f.heading.direction == -1)
    && forall i :: 0 <= i < |f.enemies| && f.enemies[i].alive ==>
         Clear(f.enemies[i].x, NextSideways(f.heading), width)
  }

  /** `after` is `before` with some alive flags cleared: positions unchanged and
      no dead record revived. */
  predicate OnlyKilled(before: seq<Enemy>, after: seq<Enemy>)
  {
    |after| == |before|
    && forall i :: 0 <= i < |before| ==>
         after[i].y == before[i].y && after[i].x == before[i].x && (after[i].alive ==> before[i].alive)
  }

  /** Killing enemies never takes the formation off the grid. */
  lemma ContainedAfterKills(f: Swarm, after: seq<Enemy>, width: int)
    requires Contained(f, width) && OnlyKilled(f.enemies, after)
    ensures Contained(Swarm(after, f.heading), width)
  {
  }

  /** A contained formation stays contained through one sweep. */
  lemma SweepKeepsContained(f: Swarm, width: int)
    requires Contained(f, width)
    ensures Contained(Sweep(f, width), width)
  {
    var moved := MoveAll(f.enemies, f.heading);
    MoveAllDelta(f.enemies, f.heading);
    MinOfAlive(width, moved, Column);
    MaxOfAlive(0, moved, Column);
  }

  /** Containment holds through any number of sweeps. */
  lemma {:induction false} SweepNKeepsContained(f: Swarm, width: int, k: nat)
    requires Contained(f, width)
    ensures Contained(SweepN(f, width, k), width)
  {
    if k > 0 {
      SweepNKeepsContained(f, width, k - 1);
      SweepKeepsContained(SweepN(f, width, k - 1), width);
    }
  }

  /** One sweep of a descending formation with no alive record on either edge
      moves every alive record one row down and keeps the heading. */
  lemma DescendStep(g: Swarm, width: int)
    requires width >= 2 && g.heading.moveDown
    requires forall i :: 0 <= i < |g.enemies| && g.enemies[i].alive ==>
               g.enemies[i].x != LEFT_EDGE && g.enemies[i].x != width - 1
    ensures Sweep(g, width).heading == g.heading
    ensures |Sweep(g, width).enemies| == |g.enemies|
    ensures forall i :: 0 <= i < |g.enemies| ==>
              Sweep(g, width).enemies[i]
                == if g.enemies[i].alive then g.enemies[i].(y := g.enemies[i].y + 1) else g.enemies[i]
  {
    MoveAllPointwise(g.enemies, g.heading);
    NoEdgeNoTurn(MoveAll(g.enemies, g.heading), width);
  }

  /** A pending descent whose edge enemy is gone never ends: with no alive record
      on column 0 or `width - 1`, every later sweep moves the formation down again,
      so after `k` sweeps each alive record is `k` rows lower and nothing else changed. */
  lemma {:induction false} DescentWithoutEdge(f: Swarm, width: int, k: nat)
    requires width >= 2 && f.heading.moveDown
    requires forall i :: 0 <= i < |f.enemies| && f.enemies[i].alive ==>
               f.enemies[i].x != LEFT_EDGE && f.enemies[i].x != width - 1
    ensures SweepN(f, width, k).heading == f.heading
    ensures |SweepN(f, width, k).enemies| == |f.enemies|
    ensures forall i :: 0 <= i < |f.enemies| ==>
              SweepN(f, width, k).enemies[i]
                == if f.enemies[i].alive then f.enemies[i].(y := f.enemies[i].y + k) else f.enemies[i]
  {
    if k > 0 {
      DescentWithoutEdge(f, width, k - 1);
      DescendStep(SweepN(f, width, k - 1), width);
    }
  }
}
