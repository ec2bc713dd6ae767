/** Where the walker of the terrain generator of tdune/map.c goes, and how much it can paint. */
module TerrainWalk {
  datatype TerrainType = Mountain | Hill | Plain | Sand | Rough | Road | River | Lake | Building

  /** A cell; structure is -1 where nothing is built. */
  datatype Location = Location(terrain: TerrainType, structure: int, resource: int, entity: int)

  /** The test the generator makes before it looks at the cell in row y and column x. */
  predicate Guarded(width: nat, height: nat, x: int, y: int) {
    0 <= x < width && 0 <= y < height
  }

  /** The cell in row y and column x is in the allocation. */
  predicate InRows(width: nat, height: nat, x: int, y: int) {
    0 <= y < width && 0 <= x < height
  }

  // ----- where the walker goes

  const XDIR := [-1, 0, 1, 1, 1, 0, -1, -1]
  const YDIR := [1, 1, 1, 0, -1, -1, -1, 0]

  /** The i-th direction that a visit looks into, when the first one is d. */
  function Direction(d: nat, i: nat): (r: nat)
    requires d < 4
    ensures r < 8
  {
    if i == 0 then d
    else
      var r := Direction(d, i - 1) + i;
      if r > 7 then 0 else r
  }

  function Neighbour(x: int, y: int, direction: nat): (int, int)
    requires direction < 8
  {
    (x + XDIR[direction], y + YDIR[direction])
  }

  /** The two cells share a side. */
  predicate Adjacent(a: (int, int), b: (int, int)) {
    (a.0 == b.0 && (a.1 == b.1 + 1 || b.1 == a.1 + 1)) || (a.1 == b.1 && (a.0 == b.0 + 1 || b.0 == a.0 + 1))
  }

  /** The directions lead once around (x, y), from one cell to an adjacent one. */
  lemma Ring(x: int, y: int)
    ensures Neighbour(x, y, 0) == (x - 1, y + 1) && Neighbour(x, y, 1) == (x, y + 1)
    ensures forall i: nat :: i < 7 ==> Adjacent(Neighbour(x, y, i), Neighbour(x, y, i + 1))
    ensures Adjacent(Neighbour(x, y, 7), Neighbour(x, y, 0))
    ensures forall i: nat, j: nat :: i < j < 8 ==> Neighbour(x, y, i) != Neighbour(x, y, j)
    ensures forall i: nat :: i < 8 ==> x - 1 <= Neighbour(x, y, i).0 <= x + 1
    ensures forall i: nat :: i < 8 ==> y - 1 <= Neighbour(x, y, i).1 <= y + 1 && Neighbour(x, y, i) != (x, y)
  {
  }

  /** The cells that the first n looks of a visit at (x, y) fall on. */
  function Looks(x: int, y: int, d: nat, n: nat): set<(int, int)>
    requires d < 4
  {
    if n == 0 then {} else Looks(x, y, d, n - 1) + {Neighbour(x, y, Direction(d, n - 1))}
  }

  /** The i-th look of a first visit that begins with direction d. */
  predicate LookSafe(width: nat, height: nat, x: int, y: int, d: nat, i: nat)
    requires d < 4
  {
    var (nx, ny) := Neighbour(x, y, Direction(d, i));
    Guarded(width, height, x, y) && Guarded(width, height, nx, ny) ==> InRows(width, height, nx, ny)
  }

  /** The test keeps every look inside the allocation exactly on square maps. On the others there is a start, itself
      in the allocation, from which the very first look is outside. */
  lemma LooksSafeIff(width: nat, height: nat)
    requires width >= 1 && height >= 1
    ensures (forall x, y, d: nat, i: nat :: d < 4 ==> LookSafe(width, height, x, y, d, i)) <==> width == height
    ensures width != height ==>
      exists x, y, d: nat :: d < 4 && InRows(width, height, x, y) && !LookSafe(width, height, x, y, d, 0)
  {
    if width < height {
      assert Neighbour(0, width - 1, Direction(1, 0)) == (0, width);
      assert !LookSafe(width, height, 0, width - 1, 1, 0) && InRows(width, height, 0, width - 1);
    }
    if height < width {
      assert Neighbour(height - 1, 0, Direction(3, 0)) == (height, 0);
      assert !LookSafe(width, height, height - 1, 0, 3, 0) && InRows(width, height, height - 1, 0);
    }
  }

  /** All eight looks of a visit. */
  function Around(x: int, y: int, d: nat): set<(int, int)>
    requires d < 4
  {
    Looks(x, y, d, 8)
  }

  /** The directions of a visit: the wrap back to 0 makes some of them come up again. */
  lemma Directions(d: nat)
    requires d < 4
    ensures Direction(d, 0) == d && Direction(d, 1) == d + 1 && Direction(d, 2) == d + 3
    ensures Direction(d, 3) == if d < 2 then d + 6 else 0
    ensures Direction(d, 4) == if d < 2 then 0 else 4
    ensures Direction(d, 5) == if d < 2 then 5 else 0
    ensures Direction(d, 6) == if d < 2 then 0 else 6
    ensures Direction(d, 7) == if d < 2 then 7 else 0
  {
  }

  lemma {:induction false} LookedAt(x: int, y: int, d: nat, m: nat, n: nat)
    requires d < 4 && m < n
    ensures Neighbour(x, y, Direction(d, m)) in Looks(x, y, d, n)
  {
    hide Direction, Neighbour;
    if m < n - 1 {
      LookedAt(x, y, d, m, n - 1);
    }
  }

  lemma {:induction false} LooksAre(x: int, y: int, d: nat, n: nat, p: (int, int))
    requires d < 4 && p in Looks(x, y, d, n)
    ensures exists m: nat :: m < n && p == Neighbour(x, y, Direction(d, m))
  {
    hide Direction, Neighbour;
    if p in Looks(x, y, d, n - 1) {
      LooksAre(x, y, d, n - 1, p);
    } else {
      assert p == Neighbour(x, y, Direction(d, n - 1));
    }
  }

  lemma AroundLevel(x: int, y: int)
    ensures Around(x, y, 0) == {(x - 1, y + 1), (x, y + 1), (x + 1, y), (x - 1, y - 1), (x, y - 1), (x - 1, y)}
  {
    hide Direction, Looks;
    Directions(0);
    forall p | p in Around(x, y, 0)
      ensures p in {(x - 1, y + 1), (x, y + 1), (x + 1, y), (x - 1, y - 1), (x, y - 1), (x - 1, y)}
    {
      LooksAre(x, y, 0, 8, p);
    }
    LookedAt(x, y, 0, 0, 8);
    LookedAt(x, y, 0, 1, 8);
    LookedAt(x, y, 0, 2, 8);
    LookedAt(x, y, 0, 3, 8);
    LookedAt(x, y, 0, 5, 8);
    LookedAt(x, y, 0, 7, 8);
  }

  lemma AroundSlant(x: int, y: int)
    ensures Around(x, y, 1) == {(x, y + 1), (x + 1, y + 1), (x + 1, y - 1), (x - 1, y), (x - 1, y + 1), (x, y - 1)}
  {
    hide Direction, Looks;
    Directions(1);
    forall p | p in Around(x, y, 1)
      ensures p in {(x, y + 1), (x + 1, y + 1), (x + 1, y - 1), (x - 1, y), (x - 1, y + 1), (x, y - 1)}
    {
      LooksAre(x, y, 1, 8, p);
    }
    LookedAt(x, y, 1, 0, 8);
    LookedAt(x, y, 1, 1, 8);
    LookedAt(x, y, 1, 2, 8);
    LookedAt(x, y, 1, 3, 8);
    LookedAt(x, y, 1, 4, 8);
    LookedAt(x, y, 1, 5, 8);
  }

  lemma AroundClimb(x: int, y: int)
    ensures Around(x, y, 2) == {(x - 1, y + 1), (x + 1, y + 1), (x + 1, y), (x + 1, y - 1), (x, y - 1), (x - 1, y - 1)}
  {
    hide Direction, Looks;
    Directions(2);
    forall p | p in Around(x, y, 2)
      ensures p in {(x - 1, y + 1), (x + 1, y + 1), (x + 1, y), (x + 1, y - 1), (x, y - 1), (x - 1, y - 1)}
    {
      LooksAre(x, y, 2, 8, p);
    }
    LookedAt(x, y, 2, 0, 8);
    LookedAt(x, y, 2, 1, 8);
    LookedAt(x, y, 2, 2, 8);
    LookedAt(x, y, 2, 3, 8);
    LookedAt(x, y, 2, 4, 8);
    LookedAt(x, y, 2, 6, 8);
  }

  lemma AroundDrop(x: int, y: int)
    ensures Around(x, y, 3) == {(x + 1, y), (x + 1, y - 1), (x - 1, y - 1), (x - 1, y + 1)}
  {
    hide Direction, Looks;
    Directions(3);
    forall p | p in Around(x, y, 3)
      ensures p in {(x + 1, y), (x + 1, y - 1), (x - 1, y - 1), (x - 1, y + 1)}
    {
      LooksAre(x, y, 3, 8, p);
    }
    LookedAt(x, y, 3, 0, 8);
    LookedAt(x, y, 3, 1, 8);
    LookedAt(x, y, 3, 2, 8);
    LookedAt(x, y, 3, 3, 8);
  }

  /** The cells that the visits with each first direction look at. */
  lemma AroundIs(x: int, y: int)
    ensures Around(x, y, 0) == {(x - 1, y + 1), (x, y + 1), (x + 1, y), (x - 1, y - 1), (x, y - 1), (x - 1, y)}
    ensures Around(x, y, 1) == {(x, y + 1), (x + 1, y + 1), (x + 1, y - 1), (x - 1, y), (x - 1, y + 1), (x, y - 1)}
    ensures Around(x, y, 2) == {(x - 1, y + 1), (x + 1, y + 1), (x + 1, y), (x + 1, y - 1), (x, y - 1), (x - 1, y - 1)}
    ensures Around(x, y, 3) == {(x + 1, y), (x + 1, y - 1), (x - 1, y - 1), (x - 1, y + 1)}
  {
    hide Around;
    AroundLevel(x, y);
    AroundSlant(x, y);
    AroundClimb(x, y);
    AroundDrop(x, y);
  }

  /** A look adds at most one cell. */
  lemma LookAdds(x: int, y: int, d: nat, n: nat)
    requires d < 4
    ensures |Looks(x, y, d, n + 1)| <= |Looks(x, y, d, n)| + 1
  {
    hide Direction, Neighbour;
  }

  /** A look into a direction that came up before adds none. */
  lemma LookRepeats(x: int, y: int, d: nat, m: nat, n: nat)
    requires d < 4 && m < n && Direction(d, m) == Direction(d, n)
    ensures Looks(x, y, d, n + 1) == Looks(x, y, d, n)
  {
    hide Direction, Neighbour;
    LookedAt(x, y, d, m, n);
  }

  lemma NeighbourNear(x: int, y: int, direction: nat)
    requires direction < 8
    ensures var (nx, ny) := Neighbour(x, y, direction); x - 1 <= nx <= x + 1 && y - 1 <= ny <= y + 1
  {
  }

  lemma {:induction false} LooksNear(x: int, y: int, d: nat, n: nat)
    requires d < 4
    ensures forall p :: p in Looks(x, y, d, n) ==> x - 1 <= p.0 <= x + 1 && y - 1 <= p.1 <= y + 1
  {
    hide Direction, Neighbour;
    if n > 0 {
      LooksNear(x, y, d, n - 1);
      NeighbourNear(x, y, Direction(d, n - 1));
    }
  }

  /** A visit reaches at most six cells, and it ends to the left of where it began. */
  lemma VisitFacts(x: int, y: int, d: nat)
    requires d < 4
    ensures |Around(x, y, d)| <= 6
    ensures Neighbour(x, y, Direction(d, 7)) == (x - 1, if d < 2 then y else y + 1)
    ensures forall p :: p in Around(x, y, d) ==> x - 1 <= p.0 <= x + 1 && y - 1 <= p.1 <= y + 1
  {
    hide Direction;
    Directions(d);
    LooksNear(x, y, d, 8);
    hide Looks;
    LookNothing(x, y, d);
    for n := 0 to 4
      invariant |Looks(x, y, d, n)| <= n
    {
      LookAdds(x, y, d, n);
    }
    LookAdds(x, y, d, 4);
    LookAdds(x, y, d, 5);
    LookAdds(x, y, d, 6);
    LookAdds(x, y, d, 7);
    if d == 0 {
      LookRepeats(x, y, d, 0, 4);
      LookRepeats(x, y, d, 0, 6);
    } else if d == 1 {
      LookRepeats(x, y, d, 4, 6);
      LookRepeats(x, y, d, 3, 7);
    } else {
      LookRepeats(x, y, d, 3, 5);
      LookRepeats(x, y, d, 3, 7);
    }
  }

  lemma LookNothing(x: int, y: int, d: nat)
    requires d < 4
    ensures Looks(x, y, d, 0) == {}
  {
  }

  // ----- what the walk reaches

  ghost predicate Square(rows: seq<seq<Location>>) {
    forall i :: 0 <= i < |rows| ==> |rows[i]| == |rows|
  }

  /** The cells that may be painted, as (x, y): plain ground with nothing built on it. */
  ghost function Free(rows: seq<seq<Location>>): set<(int, int)>
    requires Square(rows)
  {
    set x, y | 0 <= x < |rows| && 0 <= y < |rows| && rows[y][x].terrain == Plain && rows[y][x].structure == -1 :: (x, y)
  }

  /** Where the walker stands after n visits: where the last look of each visit fell. */
  function Stand(draws: nat -> nat, x: int, y: int, n: nat): (int, int) {
    if n == 0 then (x, y)
    else
      var (px, py) := Stand(draws, x, y, n - 1);
      Neighbour(px, py, Direction(draws(n - 1) % 4, 7))
  }

  /** The cells within reach of the first n visits. */
  function Trail(draws: nat -> nat, x: int, y: int, n: nat): set<(int, int)> {
    if n == 0 then {}
    else Trail(draws, x, y, n - 1) + Reach(draws, x, y, n - 1)
  }

  /** The cells within reach of the visit after the first n. */
  function Reach(draws: nat -> nat, x: int, y: int, n: nat): set<(int, int)> {
    var (px, py) := Stand(draws, x, y, n);
    Around(px, py, draws(n) % 4)
  }

  /** What the counter stands at after n visits: one for the start, one for each cell and one for each visit. */
  function Spent(draws: nat -> nat, x: int, y: int, free: set<(int, int)>, n: nat): nat {
    1 + |Trail(draws, x, y, n) * free| + n
  }

  /** The walk ends with the first visit that brings the counter up to the target. */
  predicate StopsAfter(draws: nat -> nat, x: int, y: int, free: set<(int, int)>, target: nat, n: nat) {
    if target == 0 then n == 0
    else
      Spent(draws, x, y, free, n) >= target && (n > 0 ==> Spent(draws, x, y, free, n - 1) < target)
  }

  function Target(width: nat, height: nat, percent: nat): nat {
    width * height * percent / 100
  }

  lemma LastLook(x: int, y: int, d: nat)
    requires d < 4
    ensures Neighbour(x, y, Direction(d, 7)) == (x - 1, if d < 2 then y else y + 1)
  {
    VisitFacts(x, y, d);
  }

  lemma TargetIs(width: nat, height: nat, percent: nat)
    ensures var target := Target(width, height, percent);
      100 * target <= width * height * percent < 100 * (target + 1)
  {
  }

  // ----- how much that is

  /** How far the walker has gone up after n visits. */
  function Ups(draws: nat -> nat, n: nat): nat {
    if n == 0 then 0 else Ups(draws, n - 1) + if draws(n - 1) % 4 < 2 then 0 else 1
  }

  /** Every visit takes the walker one column to the left, whatever is drawn. */
  lemma {:induction false} MarchesLeft(draws: nat -> nat, x: int, y: int, n: nat)
    ensures Stand(draws, x, y, n) == (x - n, y + Ups(draws, n)) && Ups(draws, n) <= n
  {
    hide Neighbour, Direction;
    if n > 0 {
      MarchesLeft(draws, x, y, n - 1);
      LastLook(x - (n - 1), y + Ups(draws, n - 1), draws(n - 1) % 4);
    }
  }

  lemma ReachFacts(draws: nat -> nat, x: int, y: int, n: nat)
    ensures |Reach(draws, x, y, n)| <= 6
    ensures forall p :: p in Reach(draws, x, y, n) ==>
      x - n - 1 <= p.0 <= x - n + 1 && y + Ups(draws, n) - 1 <= p.1 <= y + Ups(draws, n) + 1
  {
    hide Around, Ups, Neighbour, Direction, Looks, Stand;
    MarchesLeft(draws, x, y, n);
    VisitFacts(x - n, y + Ups(draws, n), draws(n) % 4);
  }

  /** A cell is within reach of the first n visits when it is within reach of one of them. Each visit begins one column
      to the left of the one before, and one row up when that one began with direction 2 or 3. */
  lemma {:induction false} TrailIs(draws: nat -> nat, x: int, y: int, n: nat, p: (int, int))
    ensures p in Trail(draws, x, y, n)
      <==> exists i: nat :: i < n && p in Around(x - i, y + Ups(draws, i), draws(i) % 4)
  {
    hide Around, Ups, Stand;
    if n > 0 {
      TrailIs(draws, x, y, n - 1, p);
      MarchesLeft(draws, x, y, n - 1);
    }
  }

  lemma {:induction false} UpsCounts(draws: nat -> nat, n: nat)
    ensures Ups(draws, n) == |set i: nat | i < n && draws(i) % 4 >= 2|
  {
    if n > 0 {
      UpsCounts(draws, n - 1);
      var before := set i: nat | i < n - 1 && draws(i) % 4 >= 2;
      assert (set i: nat | i < n && draws(i) % 4 >= 2) == before + if draws(n - 1) % 4 >= 2 then {n - 1} else {};
    }
  }

  lemma TrailSplit(draws: nat -> nat, x: int, y: int, n: nat)
    ensures Trail(draws, x, y, 0) == {}
    ensures Trail(draws, x, y, n + 1) == Trail(draws, x, y, n) + Reach(draws, x, y, n)
  {
    hide Reach;
  }

  lemma VisitAdds(draws: nat -> nat, x: int, y: int, free: set<(int, int)>, n: nat)
    ensures |Trail(draws, x, y, n + 1) * free| <= |Trail(draws, x, y, n) * free| + 6
  {
    hide *;
    TrailSplit(draws, x, y, n);
    ReachFacts(draws, x, y, n);
    UnionAtMost(Trail(draws, x, y, n), Reach(draws, x, y, n), free);
  }

  lemma UnionAtMost<T>(s: set<T>, t: set<T>, free: set<T>)
    ensures |(s + t) * free| <= |s * free| + |t|
  {
    assert (s + t) * free == s * free + (t - s) * free;
    Smaller((t - s) * free, t);
  }

  lemma {:induction false} Smaller<T>(s: set<T>, t: set<T>)
    requires forall x :: x in s ==> x in t
    ensures |s| <= |t|
  {
    if s != {} {
      var x :| x in s;
      Smaller(s - {x}, t - {x});
    }
  }

  /** The last visit can overshoot the target, but by no more than four cells. */
  lemma PaintedAtMost(draws: nat -> nat, x: int, y: int, free: set<(int, int)>, target: nat, n: nat)
    requires StopsAfter(draws, x, y, free, target, n)
    ensures |Trail(draws, x, y, n) * free| <= target + 4
  {
    hide Trail;
    if n > 0 {
      VisitAdds(draws, x, y, free, n - 1);
    } else {
      TrailSplit(draws, x, y, 0);
      assert Trail(draws, x, y, n) * free == {};
    }
  }

  /** So it never reaches further right than the column next to its start. */
  lemma {:induction false} TrailBounds(draws: nat -> nat, x: int, y: int, n: nat)
    ensures forall p :: p in Trail(draws, x, y, n) ==> x - n <= p.0 <= x + 1 && y - 1 <= p.1 <= y + n
  {
    hide Reach, Stand;
    if n > 0 {
      TrailBounds(draws, x, y, n - 1);
      ReachFacts(draws, x, y, n - 1);
      MarchesLeft(draws, x, y, n - 1);
    }
  }

  lemma {:induction false} SixEach(draws: nat -> nat, x: int, y: int, free: set<(int, int)>, n: nat)
    ensures |Trail(draws, x, y, n) * free| <= 6 * n
  {
    hide *;
    TrailSplit(draws, x, y, n);
    if n == 0 {
      assert Trail(draws, x, y, n) * free == {};
    } else {
      SixEach(draws, x, y, free, n - 1);
      VisitAdds(draws, x, y, free, n - 1);
    }
  }

  /** Once it has passed the left edge nothing more is painted. */
  lemma {:induction false} PastTheEdge(draws: nat -> nat, x: nat, y: int, free: set<(int, int)>, n: nat)
    requires forall p :: p in free ==> p.0 >= 0
    requires n >= x + 2
    ensures Trail(draws, x, y, n) * free == Trail(draws, x, y, x + 2) * free
  {
    hide *;
    if n > x + 2 {
      PastTheEdge(draws, x, y, free, n - 1);
      TrailSplit(draws, x, y, n - 1);
      ReachFacts(draws, x, y, n - 1);
      assert forall p :: p in Reach(draws, x, y, n - 1) ==> p.0 < 0;
      NothingNew(Trail(draws, x, y, n - 1), Reach(draws, x, y, n - 1), free);
    }
  }

  lemma NothingNew(s: set<(int, int)>, t: set<(int, int)>, free: set<(int, int)>)
    requires forall p :: p in free ==> p.0 >= 0
    requires forall p :: p in t ==> p.0 < 0
    ensures (s + t) * free == s * free
  {
  }

  /** However much terrain is asked for, a walk paints at most six cells for each column up to its start. */
  lemma PaintedByColumns(draws: nat -> nat, x: nat, y: int, rows: seq<seq<Location>>, n: nat)
    requires Square(rows)
    ensures |Trail(draws, x, y, n) * Free(rows)| <= 6 * (x + 2)
  {
    hide Trail, Reach, Free;
    FreeOnGrid(rows);
    if n >= x + 2 {
      PastTheEdge(draws, x, y, Free(rows), n);
      SixEach(draws, x, y, Free(rows), x + 2);
    } else {
      SixEach(draws, x, y, Free(rows), n);
    }
  }

  lemma FreeOnGrid(rows: seq<seq<Location>>)
    requires Square(rows)
    ensures forall p :: p in Free(rows) ==> p.0 >= 0
  {
  }

  /** So however long the walk, the share of the map that it paints becomes smaller the larger the map is; on the
      largest map of the game it stays far below the sixty percent asked for. */
  lemma FallsShort(draws: nat -> nat, x: int, y: int, rows: seq<seq<Location>>, percent: nat, n: nat)
    requires Square(rows) && Guarded(|rows|, |rows|, x, y)
    ensures var painted := |Trail(draws, x, y, n) * Free(rows)|;
      && painted <= 6 * (|rows| + 1)
      && (6 * (|rows| + 1) < Target(|rows|, |rows|, percent) ==> painted < Target(|rows|, |rows|, percent))
      && (|rows| == 256 && percent == 60 ==> painted <= 1542 < Target(|rows|, |rows|, percent))
  {
    PaintedByColumns(draws, x, y, rows, n);
  }
}
