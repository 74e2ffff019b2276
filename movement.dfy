/** `move_enemies` of terminal_invaders.py as the in-place pass it is: one loop over
    the enemy array that moves each alive record and tracks the extremes. */
module Motion {
  import opened Formation

  /** What one `move_enemies` call promises: `after` is `before` with every record
      `Shifted` by the heading `h`; `leftMost` is the least column of the alive records
      of `after`, or `width` if there is none, and is attained by one of them;
      `rightMost` and `bottomMost` are the greatest column and row, or 0, likewise. */
  ghost predicate Tracked(before: seq<Enemy>, after: seq<Enemy>, h: Heading, width: int,
                          leftMost: int, rightMost: int, bottomMost: int)
  {
    |after| == |before| && (forall j :: 0 <= j < |before| ==> after[j] == Shifted(before[j], h))
    && leftMost <= width && (forall j :: 0 <= j < |after| && after[j].alive ==> leftMost <= after[j].x)
    && (leftMost == width || exists j :: 0 <= j < |after| && after[j].alive && after[j].x == leftMost)
    && rightMost >= 0 && (forall j :: 0 <= j < |after| && after[j].alive ==> rightMost >= after[j].x)
    && (rightMost == 0 || exists j :: 0 <= j < |after| && after[j].alive && after[j].x == rightMost)
    && bottomMost >= 0 && (forall j :: 0 <= j < |after| && after[j].alive ==> bottomMost >= after[j].y)
    && (bottomMost == 0 || exists j :: 0 <= j < |after| && after[j].alive && after[j].y == bottomMost)
  }

  /** The loop of `move_enemies`: moves every alive record in place, down one row or
      sideways by the direction, and tracks the extremes in the same pass. */
  method MoveAndTrack(enemies: array<Enemy>, h: Heading, width: int)
    returns (leftMost: int, rightMost: int, bottomMost: int)
    modifies enemies
    ensures Tracked(old(enemies[..]), enemies[..], h, width, leftMost, rightMost, bottomMost)
  {
    leftMost, rightMost, bottomMost := width, 0, 0;
    // Ghost witnesses: the index that attains each extreme, -1 while it is the start value.
    ghost var li, ri, bi := -1, -1, -1;
    ghost var src := enemies[..];
    var i := 0;
    while i < enemies.Length
      invariant 0 <= i <= enemies.Length == |src|
      invariant forall j :: 0 <= j < i ==> enemies[j] == Shifted(src[j], h)
      invariant forall j :: i <= j < enemies.Length ==> enemies[j] == src[j]
      invariant leftMost <= width
      invariant forall j :: 0 <= j < i && src[j].alive ==> leftMost <= Shifted(src[j], h).x
      invariant rightMost >= 0
      invariant forall j :: 0 <= j < i && src[j].alive ==> rightMost >= Shifted(src[j], h).x
      invariant bottomMost >= 0
      invariant forall j :: 0 <= j < i && src[j].alive ==> bottomMost >= Shifted(src[j], h).y
      invariant -1 <= li < i && (li == -1 ==> leftMost == width)
      invariant li >= 0 ==> src[li].alive && Shifted(src[li], h).x == leftMost
      invariant -1 <= ri < i && (ri == -1 ==> rightMost == 0)
      invariant ri >= 0 ==> src[ri].alive && Shifted(src[ri], h).x == rightMost
      invariant -1 <= bi < i && (bi == -1 ==> bottomMost == 0)
      invariant bi >= 0 ==> src[bi].alive && Shifted(src[bi], h).y == bottomMost
    {
      var e := enemies[i];
      if e.alive {
        e := Shifted(e, h);
        enemies[i] := e;
        bi := if e.y > bottomMost then i else bi;
        bottomMost := if e.y > bottomMost then e.y else bottomMost;
        li := if e.x < leftMost then i else li;
        leftMost := if e.x < leftMost then e.x else leftMost;
        ri := if e.x > rightMost then i else ri;
        rightMost := if e.x > rightMost then e.x else rightMost;
      }
      i := i + 1;
    }
    assert src == old(enemies[..]);
  }

  /** `move_enemies`: the moving pass, then the edge policy on the extremes it found.
      The enemy array afterwards and the returned heading are one `Sweep` of the
      formation, and the extremes are the folds over the moved alive records. */
  method MoveEnemies(enemies: array<Enemy>, h: Heading, width: int)
    returns (leftMost: int, rightMost: int, bottomMost: int, h': Heading)
    modifies enemies
    ensures Swarm(enemies[..], h') == Sweep(Swarm(old(enemies[..]), h), width)
    ensures leftMost == MinOf(width, AliveCoords(enemies[..], Column))
    ensures rightMost == MaxOf(0, AliveCoords(enemies[..], Column))
    ensures bottomMost == MaxOf(0, AliveCoords(enemies[..], Row))
  {
    leftMost, rightMost, bottomMost := MoveAndTrack(enemies, h, width);
    h' := h;
    if leftMost == LEFT_EDGE || rightMost == width - 1 {
      if h.moveDown {
        h' := Heading(-h.direction, false);
      } else {
        h' := Heading(h.direction, true);
      }
    }
    TrackedSweep(old(enemies[..]), enemies[..], h, width, leftMost, rightMost, bottomMost, h');
  }

  /** What `MoveEnemies` leaves behind is one `Sweep` of what it found: the records
      moved one by one form `MoveAll`, and extremes characterised as the method's
      are exactly the folds `Sweep` and the loss test read, so the new heading agrees too. */
  lemma TrackedSweep(before: seq<Enemy>, after: seq<Enemy>, h: Heading, width: int,
                     leftMost: int, rightMost: int, bottomMost: int, h': Heading)
    requires Tracked(before, after, h, width, leftMost, rightMost, bottomMost)
    requires h' == Turn(h, AtEdge(leftMost, rightMost, width))
    ensures Sweep(Swarm(before, h), width) == Swarm(after, h')
    ensures leftMost == MinOf(width, AliveCoords(after, Column))
    ensures rightMost == MaxOf(0, AliveCoords(after, Column))
    ensures bottomMost == MaxOf(0, AliveCoords(after, Row))
  {
    MoveAllPointwise(before, h);
    assert MoveAll(before, h) == after;
    LeastIsMinOf(leftMost, width, after, Column);
    GreatestIsMaxOf(rightMost, 0, after, Column);
    GreatestIsMaxOf(bottomMost, 0, after, Row);
  }
}
