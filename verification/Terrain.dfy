/**
 The terrain generator of tdune/map.c: a walker that paints the cells around it. The random draws are an
 arbitrary stream.
 */
module Terrain {
  import opened TerrainTarget
  import opened TerrainWalk

  class MapProperties {
    const width: nat
    const height: nat
    /** One row for each unit of the width, although rows are selected by the y coordinate. */
    const cells: array2<Location>

    constructor (width: nat, height: nat, location: Location)
      ensures this.width == width && this.height == height && Allocated()
      ensures fresh(cells) && forall i, j :: 0 <= i < width && 0 <= j < height ==> cells[i, j] == location
    {
      this.width, this.height := width, height;
      this.cells := new Location[width, height]((i, j) => location);
    }

    ghost predicate Allocated() {
      cells.Length0 == width && cells.Length1 == height
    }

    ghost function Contents(): (rows: seq<seq<Location>>)
      requires Allocated()
      reads cells
    {
      seq(width, i requires 0 <= i < width && Allocated() reads cells =>
        seq(height, j requires 0 <= j < height && Allocated() reads cells => cells[i, j]))
    }
  }

  /** The cells of `painted` have the new terrain; everything else is as it was. */
  ghost predicate Painted(was: seq<seq<Location>>, now: seq<seq<Location>>, terrain: TerrainType,
                          painted: set<(int, int)>) {
    && |now| == |was| && Square(was) && Square(now)
    && forall x, y :: 0 <= x < |was| && 0 <= y < |was| ==>
      now[y][x] == if (x, y) in painted then was[y][x].(terrain := terrain) else was[y][x]
  }

  /** The painted cells after one more look. */
  ghost function Marked(seen: set<(int, int)>, free: set<(int, int)>, p: (int, int)): set<(int, int)> {
    seen + {p} * free
  }

  ghost predicate Unpainted(seen: set<(int, int)>, free: set<(int, int)>, p: (int, int)) {
    p in free && p !in seen
  }

  ghost predicate Within(seen: set<(int, int)>, free: set<(int, int)>) {
    forall p :: p in seen ==> p in free
  }

  /** A look at one cell, and what it does to the painted cells. */
  method Look(m: MapProperties, terrain: TerrainType, x: int, y: int, ghost was: seq<seq<Location>>,
              ghost seen: set<(int, int)>)
    returns (hit: bool)
    requires m.Allocated() && m.width == m.height
    requires Square(was) && Painted(was, m.Contents(), terrain, seen) && Within(seen, Free(was))
    modifies m.cells
    ensures Painted(was, m.Contents(), terrain, Marked(seen, Free(was), (x, y)))
    ensures terrain != Plain ==> (hit <==> Unpainted(seen, Free(was), (x, y)))
    ensures hit <==> && 0 <= x < m.width && 0 <= y < m.height
                     && old(m.cells[y, x]).terrain == Plain && old(m.cells[y, x]).structure == -1
    ensures forall x', y' :: 0 <= x' < m.width && 0 <= y' < m.height ==>
      m.cells[y', x'] ==
        if hit && (x', y') == (x, y) then old(m.cells[y', x']).(terrain := terrain) else old(m.cells[y', x'])
  {
    if x < 0 || y < 0 || x >= m.width || y >= m.height ||
      m.cells[y, x].structure != -1 || m.cells[y, x].terrain != Plain {
      return false;
    }
    m.cells[y, x] := m.cells[y, x].(terrain := terrain);
    hit := true;
  }

  /** The painted cells after n looks of a visit. */
  ghost function Seen(painted: set<(int, int)>, free: set<(int, int)>, x: int, y: int, d: nat, n: nat): set<(int, int)>
    requires d < 4
  {
    painted + Looks(x, y, d, n) * free
  }

  lemma SeenNext(painted: set<(int, int)>, free: set<(int, int)>, x: int, y: int, d: nat, n: nat)
    requires d < 4 && Within(painted, free)
    ensures var seen, next, p := Seen(painted, free, x, y, d, n), Seen(painted, free, x, y, d, n + 1),
        Neighbour(x, y, Direction(d, n));
      && Within(seen, free) && next == Marked(seen, free, p)
      && |next| == |seen| + if Unpainted(seen, free, p) then 1 else 0
    ensures Seen(painted, free, x, y, d, 0) == painted
  {
    hide Direction, Neighbour;
    AddOne(painted, Looks(x, y, d, n), free, Neighbour(x, y, Direction(d, n)));
    LookNothing(x, y, d);
    assert painted + {} * free == painted;
  }

  lemma AddOne<T>(painted: set<T>, looks: set<T>, free: set<T>, p: T)
    ensures var seen, next := painted + looks * free, painted + (looks + {p}) * free;
      next == seen + {p} * free && |next| == |seen| + if p in free - seen then 1 else 0
  {
    var seen, next := painted + looks * free, painted + (looks + {p}) * free;
    assert next == if p in free - seen then seen + {p} else seen;
  }

  /** The next direction of a visit, and the cell that lies there. */
  method Turn(x: int, y: int, direction: nat, loopcount: nat, ghost d: nat) returns (next: nat, tmpx: int, tmpy: int)
    requires d < 4 && direction == if loopcount == 0 then d else Direction(d, loopcount - 1)
    ensures next == Direction(d, loopcount) && (tmpx, tmpy) == Neighbour(x, y, next)
  {
    next := direction + loopcount;
    if next > 7 {
      next := 0;
    }
    tmpx, tmpy := x + XDIR[next], y + YDIR[next];
  }

  /** One visit: eight looks, after which the walker stands where the last one fell. */
  method Visit(m: MapProperties, terrain: TerrainType, x: int, y: int, draw: nat, ghost was: seq<seq<Location>>,
               ghost painted: set<(int, int)>)
    returns (tmpx: int, tmpy: int, hits: nat)
    requires m.Allocated() && m.width == m.height
    requires Square(was) && Painted(was, m.Contents(), terrain, painted) && Within(painted, Free(was))
    modifies m.cells
    ensures var painted' := Seen(painted, Free(was), x, y, draw % 4, 8);
      && Painted(was, m.Contents(), terrain, painted')
      && (terrain != Plain ==> |painted'| == |painted| + hits)
    ensures (tmpx, tmpy) == Neighbour(x, y, Direction(draw % 4, 7))
    ensures tmpx == x - 1 && tmpy == if draw % 4 < 2 then y else y + 1
  {
    hide *;
    ghost var d, free := draw % 4, Free(was);
    var done, loopcount, direction := false, 0, draw % 4;
    tmpx, tmpy, hits := x, y, 0;
    SeenNext(painted, free, x, y, d, 0);
    while !done
      invariant 0 <= loopcount <= 8 && (done <==> loopcount > 7)
      invariant direction == if loopcount == 0 then d else Direction(d, loopcount - 1)
      invariant loopcount > 0 ==> (tmpx, tmpy) == Neighbour(x, y, direction)
      invariant Painted(was, m.Contents(), terrain, Seen(painted, free, x, y, d, loopcount))
      invariant terrain != Plain ==> |Seen(painted, free, x, y, d, loopcount)| == |painted| + hits
      decreases 8 - loopcount
    {
      SeenNext(painted, free, x, y, d, loopcount);
      direction, tmpx, tmpy := Turn(x, y, direction, loopcount, d);
      loopcount := loopcount + 1;
      if loopcount > 7 {
        done := true;
      }
      var hit := Look(m, terrain, tmpx, tmpy, was, Seen(painted, free, x, y, d, loopcount - 1));
      if hit {
        hits := hits + 1;
      }
    }
    LastLook(x, y, d);
  }

  /**
   Paints terrain on a square map from the cell (x, y) on: exactly the free cells within reach of as many
   visits as it takes to use up the target. A target above 28 is used up before as many cells are painted.
   */
  method GenerateTerrain(m: MapProperties, terrain: TerrainType, percent: nat, x0: int, y0: int, draws: nat -> nat)
    returns (status: int, visits: nat)
    requires m.Allocated() && m.width == m.height && Guarded(m.width, m.height, x0, y0)
    modifies m.cells
    ensures status == 0
    ensures var was := old(m.Contents());
      && Square(was)
      && Painted(was, m.Contents(), terrain, Trail(draws, x0, y0, visits) * Free(was))
      && (terrain != Plain ==>
            StopsAfter(draws, x0, y0, Free(was), Target(m.width, m.height, percent), visits))
      && (terrain != Plain && Target(m.width, m.height, percent) > 28 ==>
            |Trail(draws, x0, y0, visits) * Free(was)| < Target(m.width, m.height, percent))
    ensures forall x, y :: 0 <= x < m.width && 0 <= y < m.height ==>
      var was := old(m.cells[y, x]);
      m.cells[y, x] ==
        if (x, y) in Trail(draws, x0, y0, visits) && was.terrain == Plain && was.structure == -1
        then was.(terrain := terrain) else was
  {
    hide Painted, Free, Around, Square, Trail, Stand, Seen, Within, Neighbour, Direction;
    var maxterrain := m.width * m.height * percent / 100;
    var x, y, count := x0, y0, 0;
    ghost var was := m.Contents();
    ghost var free := (SquareContents(m); Free(was));
    PaintedNothing(was, terrain);
    visits := 0;
    TrailNext(draws, x0, y0, 0, free);
    while count < maxterrain
      invariant Painted(was, m.Contents(), terrain, Trail(draws, x0, y0, visits) * free)
      invariant count == 0 ==> visits == 0 && x == x0 && y == y0
      invariant count > 0 ==> count >= maxterrain
      invariant terrain != Plain && count > 0 ==> StopsAfter(draws, x0, y0, free, maxterrain, visits)
      decreases maxterrain - count
    {
      count := count + 1;
      while count < maxterrain
        invariant Painted(was, m.Contents(), terrain, Trail(draws, x0, y0, visits) * free)
        invariant (x, y) == Stand(draws, x0, y0, visits) && count > 0
        invariant terrain != Plain ==> count == Spent(draws, x0, y0, free, visits)
        invariant terrain != Plain && visits > 0 ==> Spent(draws, x0, y0, free, visits - 1) < maxterrain
        decreases maxterrain - count
      {
        var hits;
        TrailNext(draws, x0, y0, visits, free);
        x, y, hits := Visit(m, terrain, x, y, draws(visits), was, Trail(draws, x0, y0, visits) * free);
        count := count + hits;
        count := count + 1;
        visits := visits + 1;
      }
    }
    PaintedCells(m, was, terrain, Trail(draws, x0, y0, visits));
    if terrain != Plain && maxterrain > 28 && |Trail(draws, x0, y0, visits) * free| >= maxterrain {
      MetIsSmall(draws, x0, y0, free, maxterrain, visits);
      assert false;
    }
    status := 0;
  }

  lemma PaintedCells(m: MapProperties, was: seq<seq<Location>>, terrain: TerrainType, reached: set<(int, int)>)
    requires m.Allocated() && m.width == m.height == |was|
    requires Square(was) && Painted(was, m.Contents(), terrain, reached * Free(was))
    ensures forall x, y :: 0 <= x < m.width && 0 <= y < m.height ==>
      m.cells[y, x] ==
        if (x, y) in reached && was[y][x].terrain == Plain && was[y][x].structure == -1
        then was[y][x].(terrain := terrain) else was[y][x]
  {
    forall x, y | 0 <= x < m.width && 0 <= y < m.height ensures m.cells[y, x] == m.Contents()[y][x] {
    }
  }

  lemma SquareContents(m: MapProperties)
    requires m.Allocated() && m.width == m.height
    ensures Square(m.Contents())
  {
  }

  lemma TrailNext(draws: nat -> nat, x: int, y: int, n: nat, free: set<(int, int)>)
    ensures Trail(draws, x, y, 0) * free == {} && Spent(draws, x, y, free, 0) == 1 && Stand(draws, x, y, 0) == (x, y)
    ensures var (px, py) := Stand(draws, x, y, n);
      var d := draws(n) % 4;
      && Stand(draws, x, y, n + 1) == Neighbour(px, py, Direction(d, 7))
      && Trail(draws, x, y, n + 1) * free == Seen(Trail(draws, x, y, n) * free, free, px, py, d, 8)
    ensures Within(Trail(draws, x, y, n) * free, free)
  {
    hide Looks, Direction, Neighbour;
    assert Trail(draws, x, y, 0) == {};
  }

  lemma PaintedNothing(was: seq<seq<Location>>, terrain: TerrainType)
    requires Square(was)
    ensures Painted(was, was, terrain, {})
  {
  }
}
