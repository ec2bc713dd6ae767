/** Whether the terrain generator of tdune/map.c paints as many cells as it is asked for. */
module TerrainTarget {
  import opened TerrainWalk

  /** Every visit uses up the counter too, so a walk of n visits paints that much less. */
  lemma VisitsUseUp(draws: nat -> nat, x: int, y: int, free: set<(int, int)>, target: nat, n: nat)
    requires StopsAfter(draws, x, y, free, target, n)
    ensures n > 0 ==> |Trail(draws, x, y, n) * free| + n <= target + 5
    ensures 7 * |Trail(draws, x, y, n) * free| <= 6 * target + 30
  {
    hide Trail;
    SixEach(draws, x, y, free, n);
    if n > 0 {
      VisitAdds(draws, x, y, free, n - 1);
    }
  }

  // ----- how the visits overlap

  lemma Overlap<T>(s: set<T>, t: set<T>, free: set<T>, common: set<T>)
    requires common <= s && common <= t
    ensures |(s + t) * free| <= |s * free| + |t| - |common|
  {
    assert s + t == s + (t - common);
    UnionAtMost(s, t - common, free);
    assert |t| == |t - common| + |common| by {
      assert t == (t - common) + common;
    }
  }

  /** Some of the cells that a visit reaches. */
  lemma AroundHas(x: int, y: int, d: nat)
    requires d < 3
    ensures d < 2 ==> {(x - 1, y + 1), (x, y + 1), (x, y - 1)} <= Around(x, y, d)
    ensures d == 2 ==> {(x + 1, y + 1), (x + 1, y - 1)} <= Around(x, y, d)
  {
    hide Around;
    AroundIs(x, y);
  }

  /** A visit that begins downwards to the right reaches four cells only. */
  lemma FourOnly(x: int, y: int)
    ensures |Around(x, y, 3)| <= 4
  {
    hide Around;
    AroundIs(x, y);
  }

  /** After a visit that leaves the walker in its row the next one adds at most five cells, and only four if it
      begins to the upper right. */
  lemma AfterLevel(draws: nat -> nat, x: int, y: int, free: set<(int, int)>, n: nat)
    requires draws(n) % 4 < 2
    ensures |Trail(draws, x, y, n + 2) * free| <= |Trail(draws, x, y, n + 1) * free| + 5
    ensures draws(n + 1) % 4 == 2 ==>
      |Trail(draws, x, y, n + 2) * free| <= |Trail(draws, x, y, n + 1) * free| + 4
  {
    hide Around, Trail, Ups, Direction, Neighbour, Stand;
    var d, d' := draws(n) % 4, draws(n + 1) % 4;
    var (px, py) := Stand(draws, x, y, n);
    StandNext(draws, x, y, n);
    TrailSplit(draws, x, y, n);
    TrailSplit(draws, x, y, n + 1);
    VisitFacts(px - 1, py, d');
    var before, reach := Trail(draws, x, y, n + 1), Around(px - 1, py, d');
    AroundHas(px, py, d);
    if d' == 3 {
      FourOnly(px - 1, py);
      UnionAtMost(before, reach, free);
    } else {
      AroundHas(px - 1, py, d');
      var common := if d' == 2 then {(px, py + 1), (px, py - 1)} else {(px - 1, py + 1)};
      Overlap(before, reach, free, common);
    }
  }

  lemma StandNext(draws: nat -> nat, x: int, y: int, n: nat)
    ensures var (px, py) := Stand(draws, x, y, n);
      Stand(draws, x, y, n + 1) == (px - 1, if draws(n) % 4 < 2 then py else py + 1)
  {
    hide Direction, Neighbour;
    var (px, py) := Stand(draws, x, y, n);
    LastLook(px, py, draws(n) % 4);
  }

  /** A visit to the upper right after another such reaches the place from which that one started, which the visit
      before that has looked at. */
  lemma AfterClimb(draws: nat -> nat, x: int, y: int, free: set<(int, int)>, n: nat)
    requires draws(n + 1) % 4 == 2 && draws(n + 2) % 4 == 2
    ensures |Trail(draws, x, y, n + 3) * free| <= |Trail(draws, x, y, n + 2) * free| + 5
  {
    hide Around, Trail, Ups, Direction, Neighbour, Stand;
    var (px, py) := Stand(draws, x, y, n + 1);
    StandNext(draws, x, y, n + 1);
    TrailSplit(draws, x, y, n);
    TrailSplit(draws, x, y, n + 1);
    TrailSplit(draws, x, y, n + 2);
    StandReached(draws, x, y, n);
    VisitFacts(px - 1, py + 1, 2);
    AroundHas(px - 1, py + 1, 2);
    Overlap(Trail(draws, x, y, n + 2), Around(px - 1, py + 1, 2), free, {(px, py)});
  }

  lemma StandReached(draws: nat -> nat, x: int, y: int, n: nat)
    ensures Stand(draws, x, y, n + 1) in Reach(draws, x, y, n)
  {
    hide Direction, Neighbour;
    var (px, py) := Stand(draws, x, y, n);
    LookedAt(px, py, draws(n) % 4, 7, 8);
  }

  lemma AfterDrop(draws: nat -> nat, x: int, y: int, free: set<(int, int)>, n: nat)
    requires draws(n) % 4 == 3
    ensures |Trail(draws, x, y, n + 1) * free| <= |Trail(draws, x, y, n) * free| + 4
  {
    hide Around, Trail, Stand;
    var (px, py) := Stand(draws, x, y, n);
    TrailSplit(draws, x, y, n);
    FourOnly(px, py);
    UnionAtMost(Trail(draws, x, y, n), Around(px, py, 3), free);
  }

  // ----- the largest target that can be met

  /** Four visits reach at most 22 cells when the fourth leaves the walker's row. */
  lemma FourVisits(draws: nat -> nat, x: int, y: int, free: set<(int, int)>)
    requires draws(3) % 4 >= 2
    ensures |Trail(draws, x, y, 4) * free| <= 22
  {
    hide Trail;
    SixEach(draws, x, y, free, 1);
    SixEach(draws, x, y, free, 2);
    SixEach(draws, x, y, free, 3);
    if draws(3) % 4 == 3 {
      AfterDrop(draws, x, y, free, 3);
    } else if draws(2) % 4 == 3 {
      AfterDrop(draws, x, y, free, 2);
      VisitAdds(draws, x, y, free, 3);
    } else if draws(2) % 4 < 2 {
      AfterLevel(draws, x, y, free, 2);
    } else {
      AfterClimb(draws, x, y, free, 1);
      if draws(1) % 4 == 3 {
        AfterDrop(draws, x, y, free, 1);
        VisitAdds(draws, x, y, free, 2);
      } else if draws(1) % 4 < 2 {
        AfterLevel(draws, x, y, free, 1);
      } else {
        AfterClimb(draws, x, y, free, 0);
      }
    }
  }

  /** Only very small targets are ever met. */
  lemma MetIsSmall(draws: nat -> nat, x: int, y: int, free: set<(int, int)>, target: nat, n: nat)
    requires StopsAfter(draws, x, y, free, target, n) && |Trail(draws, x, y, n) * free| >= target
    ensures target == 0 || 2 <= target <= 28
  {
    hide Trail;
    SixEach(draws, x, y, free, n);
    if n > 0 {
      VisitAdds(draws, x, y, free, n - 1);
      if n == 5 {
        if draws(3) % 4 < 2 {
          AfterLevel(draws, x, y, free, 3);
          assert false;
        }
        FourVisits(draws, x, y, free);
      }
    }
  }

  // ----- every smaller one can be

  /** The walk that meets the largest target: four times to the upper right, then straight on. */
  function Climb(): nat -> nat {
    n => if n < 4 then 2 else 0
  }

  /** The cells within reach of the visits of that walk from (7, 2), each without those reached before. */
  function First(): set<(int, int)> {
    {(6, 3), (8, 3), (8, 2), (8, 1), (7, 1), (6, 1)}
  }

  function Second(): set<(int, int)> {
    {(5, 4), (7, 4), (7, 3), (7, 2), (6, 2), (5, 2)}
  }

  function Third(): set<(int, int)> {
    {(4, 5), (6, 5), (6, 4), (5, 3), (4, 3)}
  }

  function Fourth(): set<(int, int)> {
    {(3, 6), (5, 6), (5, 5), (4, 4), (3, 4)}
  }

  function Fifth(): set<(int, int)> {
    {(2, 7), (3, 7), (4, 6), (2, 5), (3, 5), (2, 6)}
  }

  function Four(): set<(int, int)> {
    First() + Second() + Third() + Fourth()
  }

  lemma Visits()
    ensures Around(7, 2, 2) == First() && Around(6, 3, 2) == Second()
    ensures Around(5, 4, 2) == Third() + {(6, 3)} && (6, 3) in First()
    ensures Around(4, 5, 2) == Fourth() + {(5, 4)} && (5, 4) in Second()
    ensures Around(3, 6, 0) == Fifth()
  {
    hide Around;
    AroundIs(7, 2);
    AroundIs(6, 3);
    AroundIs(5, 4);
    AroundIs(4, 5);
    AroundIs(3, 6);
  }

  lemma ClimbStands()
    ensures Stand(Climb(), 7, 2, 0) == (7, 2) && Stand(Climb(), 7, 2, 1) == (6, 3) && Stand(Climb(), 7, 2, 2) == (5, 4)
    ensures Stand(Climb(), 7, 2, 3) == (4, 5) && Stand(Climb(), 7, 2, 4) == (3, 6)
  {
    hide Stand;
    StandStart(Climb(), 7, 2);
    StandNext(Climb(), 7, 2, 0);
    StandNext(Climb(), 7, 2, 1);
    StandNext(Climb(), 7, 2, 2);
    StandNext(Climb(), 7, 2, 3);
  }

  lemma ClimbTrail()
    ensures Trail(Climb(), 7, 2, 0) == {} && Trail(Climb(), 7, 2, 1) == First()
    ensures Trail(Climb(), 7, 2, 4) == Four() && Trail(Climb(), 7, 2, 5) == Four() + Fifth()
  {
    hide Around, Trail, Stand, First, Second, Third, Fourth, Fifth;
    ClimbStands();
    Visits();
    TrailSplit(Climb(), 7, 2, 0);
    TrailSplit(Climb(), 7, 2, 1);
    TrailSplit(Climb(), 7, 2, 2);
    TrailSplit(Climb(), 7, 2, 3);
    TrailSplit(Climb(), 7, 2, 4);
    assert Trail(Climb(), 7, 2, 3) == First() + Second() + Third();
  }

  lemma StandStart(draws: nat -> nat, x: int, y: int)
    ensures Stand(draws, x, y, 0) == (x, y)
  {
  }

  lemma Sizes()
    ensures |First()| == |Second()| == |Fifth()| == 6 && |Third()| == |Fourth()| == 5
  {
  }

  lemma Apart()
    ensures First() !! Second() && First() !! Third() && First() !! Fourth()
    ensures Second() !! Third() && Second() !! Fourth()
    ensures Third() !! Fourth()
  {
  }

  lemma FifthApart()
    ensures First() !! Fifth() && Second() !! Fifth() && Third() !! Fifth() && Fourth() !! Fifth()
  {
  }

  lemma FourSize()
    ensures |Four()| == 22 && |Fifth()| == |First()| == 6 && Four() !! Fifth()
  {
    hide First, Second, Third, Fourth, Fifth;
    Sizes();
    Apart();
    FifthApart();
    assert (First() + Second()) !! Third() && (First() + Second() + Third()) !! Fourth();
    assert |First() + Second()| == 12;
    assert |First() + Second() + Third()| == 17;
  }

  lemma {:induction false} PartOf<T>(s: set<T>, n: nat) returns (part: set<T>)
    requires n <= |s|
    ensures part <= s && |part| == n
  {
    if n == |s| {
      part := s;
    } else {
      var x :| x in s;
      part := PartOf(s - {x}, n);
    }
  }

  lemma Parts<T>(four: set<T>, fifth: set<T>, part: set<T>)
    requires four !! fifth && part <= four
    ensures four * (part + fifth) == part && (four + fifth) * (part + fifth) == part + fifth
    ensures |part + fifth| == |part| + |fifth|
  {
  }

  lemma ClimbMeets(target: nat) returns (free: set<(int, int)>, n: nat)
    requires 2 <= target <= 28
    ensures free <= Four() + Fifth()
    ensures StopsAfter(Climb(), 7, 2, free, target, n) && |Trail(Climb(), 7, 2, n) * free| >= target
  {
    hide Trail, First, Second, Third, Fourth, Fifth;
    ClimbTrail();
    FourSize();
    if target < 6 {
      free, n := First(), 1;
      assert First() * First() == First() && {} * First() == {};
    } else {
      hide Four;
      var part := PartOf(Four(), target - 6);
      free, n := part + Fifth(), 5;
      Parts(Four(), Fifth(), part);
    }
  }

  // ----- on maps

  /** On this map, from this start and with these draws, as many cells are painted as are asked for. */
  ghost predicate MetBy(rows: seq<seq<Location>>, x: int, y: int, percent: nat, draws: nat -> nat, n: nat) {
    && Square(rows) && Guarded(|rows|, |rows|, x, y)
    && var target := Target(|rows|, |rows|, percent);
       StopsAfter(draws, x, y, Free(rows), target, n) && |Trail(draws, x, y, n) * Free(rows)| >= target
  }

  ghost predicate CanBeMet(target: nat) {
    exists rows, x, y, percent, draws: nat -> nat, n ::
      MetBy(rows, x, y, percent, draws, n) && Target(|rows|, |rows|, percent) == target
  }

  /** The ten by ten map whose free cells are those. */
  function MapOf(free: set<(int, int)>): seq<seq<Location>> {
    seq(10, y => seq(10, x => Location(if (x, y) in free then Plain else Mountain, -1, 0, 0)))
  }

  lemma FreeOfMap(free: set<(int, int)>)
    requires forall p :: p in free ==> 0 <= p.0 < 10 && 0 <= p.1 < 10
    ensures Square(MapOf(free)) && |MapOf(free)| == 10 && Free(MapOf(free)) == free
  {
  }

  lemma ClimbOnMap(free: set<(int, int)>)
    requires free <= Four() + Fifth()
    ensures forall p :: p in free ==> 0 <= p.0 < 10 && 0 <= p.1 < 10
  {
    forall p | p in free ensures 0 <= p.0 < 10 && 0 <= p.1 < 10 {
      assert p in First() || p in Second() || p in Third() || p in Fourth() || p in Fifth();
    }
  }

  lemma TenByTen(target: nat)
    ensures Target(10, 10, target) == target
  {
  }

  /** A target is met on some map, from some start and with some draws, if and only if it is at most 28 and not 1. */
  lemma CanBeMetIff(target: nat)
    ensures CanBeMet(target) <==> target <= 28 && target != 1
  {
    hide StopsAfter, Trail, Free, Square, Target, Four, Fifth;
    if CanBeMet(target) {
      var rows, x, y, percent, draws: nat -> nat, n :|
        MetBy(rows, x, y, percent, draws, n) && Target(|rows|, |rows|, percent) == target;
      MetIsSmall(draws, x, y, Free(rows), target, n);
    }
    if target <= 28 && target != 1 {
      TenByTen(target);
      var free, n := {}, 0;
      if target > 0 {
        free, n := ClimbMeets(target);
      } else {
        NoneMeets();
      }
      ClimbOnMap(free);
      FreeOfMap(free);
      assert MetBy(MapOf(free), 7, 2, target, Climb(), n);
    }
  }

  lemma NoneMeets()
    ensures StopsAfter(Climb(), 7, 2, {}, 0, 0)
  {
  }
}
