/**
 * The constant tables of the game (campus catalogue, category multipliers,
 * level thresholds, configuration) and the progression functions that read
 * them: category emoji lookup, level from points, points to the next level.
 */
module Locations {

  /** A point of interest of the campus catalogue. */
  datatype Location = Location(
    id: int,
    name: string,
    description: string,
    latitude: real,
    longitude: real,
    points: int,       // base points awarded for a visit
    category: string,
    radius: int)       // detection radius in meters

  /** One row of the level table: the least cumulative points that reach `level`. */
  datatype Threshold = Threshold(level: int, minPoints: int)

  const CampusLocations: seq<Location> := [
    Location(1, "🏛️ Main Library", "The heart of academic research and study",
      40.7128, -74.0060, 50, "academic", 30),
    Location(2, "🍕 Student Center", "Hub of student life and dining",
      40.7130, -74.0055, 30, "social", 25),
    Location(3, "🔬 Science Building", "Where discoveries are made",
      40.7125, -74.0065, 40, "academic", 35),
    Location(4, "🏃 Athletic Center", "Stay fit and healthy",
      40.7135, -74.0070, 35, "recreation", 40),
    Location(5, "🎨 Arts Building", "Express your creativity",
      40.7120, -74.0050, 45, "arts", 30),
    Location(6, "☕ Campus Coffee Shop", "Fuel your studies with caffeine",
      40.7132, -74.0058, 20, "social", 20),
    Location(7, "🌳 Central Quad", "Beautiful green space for relaxation",
      40.7127, -74.0062, 25, "recreation", 50),
    Location(8, "🖥️ Computer Lab", "High-tech learning environment",
      40.7123, -74.0067, 35, "academic", 25),
    Location(9, "🏠 Dormitory Complex", "Home away from home",
      40.7140, -74.0045, 30, "residential", 60),
    Location(10, "🅿️ Main Parking", "Central campus parking area",
      40.7115, -74.0075, 15, "utility", 40)
  ]

  /** Category multipliers, in exact tenths (1.2 is 12). */
  const CategoryMultiplierTenths: map<string, int> := map[
    "academic" := 12,
    "social" := 10,
    "recreation" := 11,
    "arts" := 13,
    "residential" := 8,
    "utility" := 9
  ]

  const LevelThresholds: seq<Threshold> := [
    Threshold(1, 0),
    Threshold(2, 100),
    Threshold(3, 250),
    Threshold(4, 500),
    Threshold(5, 1000),
    Threshold(6, 2000),
    Threshold(7, 3500),
    Threshold(8, 5500),
    Threshold(9, 8000),
    Threshold(10, 12000)
  ]

  /** Points from which the top level is reached. */
  const MaxLevelPoints := 12000

  // Configuration constants (meters and milliseconds)
  const NearbyDistance := 100
  const VisitDistance := 30
  const MinAccuracy := 50           // declared by the game but never consulted
  const RevisitCooldown := 3600000
  const AutoRefreshInterval := 30000

  const CategoryEmojis: map<string, string> := map[
    "academic" := "📚",
    "social" := "👥",
    "recreation" := "🎯",
    "arts" := "🎨",
    "residential" := "🏠",
    "utility" := "🔧"
  ]

  const DefaultEmoji := "📍"

  /** No two catalogue entries share an id. */
  ghost predicate DistinctIds(locs: seq<Location>) {
    forall i, j :: 0 <= i < j < |locs| ==> locs[i].id != locs[j].id
  }

  /** The catalogue is well-formed: distinct ids, positive radii, non-negative
      points, and only categories the multiplier table knows. */
  lemma CatalogueWellFormed()
    ensures DistinctIds(CampusLocations)
    ensures forall loc :: loc in CampusLocations ==>
      loc.radius > 0 && loc.points >= 0 && loc.category in CategoryMultiplierTenths
  {
    assert forall i :: 0 <= i < |CampusLocations| ==> CampusLocations[i].id == i + 1;
  }

  /** The emoji shown for a category: the table entry, or the pin when the
      table has no (truthy) entry for it. */
  function CategoryEmoji(category: string): (r: string)
    ensures category in CategoryEmojis ==> r == CategoryEmojis[category]
    ensures category !in CategoryEmojis ==> r == DefaultEmoji
    ensures r != ""
  {
    if category in CategoryEmojis && CategoryEmojis[category] != "" then CategoryEmojis[category]
    else DefaultEmoji
  }

  /** The multiplier of a category in tenths; an unknown category (or a falsy
      zero entry) falls back to 1.0. */
  function MultiplierTenths(category: string): (r: int)
    ensures category in CategoryMultiplierTenths ==> r == CategoryMultiplierTenths[category]
    ensures category !in CategoryMultiplierTenths ==> r == 10
    ensures 8 <= r <= 13
  {
    if category in CategoryMultiplierTenths && CategoryMultiplierTenths[category] != 0
    then CategoryMultiplierTenths[category]
    else 10
  }

  // ---------------------------------------------------------------------
  // Levels

  /** A level table as the game expects it: row i is level i + 1, the first
      row starts at 0 points and the floors strictly increase. */
  ghost predicate WellFormedThresholds(ts: seq<Threshold>) {
    && |ts| > 0
    && ts[0].minPoints == 0
    && (forall i :: 0 <= i < |ts| ==> ts[i].level == i + 1)
    && (forall i, j :: 0 <= i < j < |ts| ==> ts[i].minPoints < ts[j].minPoints)
  }

  lemma ThresholdsWellFormed()
    ensures WellFormedThresholds(LevelThresholds)
    ensures |LevelThresholds| == 10 && LevelThresholds[9].minPoints == MaxLevelPoints
  {
  }

  /** The reference definition of the level: the level of the last row whose
      floor `points` has reached, or 1 when no row has been reached. */
  function LastReached(ts: seq<Threshold>, points: int): int
  {
    if ts == [] then 1
    else if ts[|ts| - 1].minPoints <= points then ts[|ts| - 1].level
    else LastReached(ts[..|ts| - 1], points)
  }

  /** On a well-formed table the level brackets the points:
      the floor of its row is reached and the floor of the next row is not. */
  lemma {:induction false} LastReachedBracket(ts: seq<Threshold>, points: int)
    requires WellFormedThresholds(ts)
    ensures var r := LastReached(ts, points);
      && 1 <= r <= |ts|
      && (r > 1 || points >= 0 ==> ts[r - 1].minPoints <= points)
      && (r < |ts| ==> points < ts[r].minPoints)
  {
    var n := |ts|;
    if ts[n - 1].minPoints <= points {
    } else if n == 1 {
    } else {
      var pre := ts[..n - 1];
      assert WellFormedThresholds(pre) by {
        assert pre[0] == ts[0];
        assert forall i :: 0 <= i < |pre| ==> pre[i] == ts[i];
      }
      LastReachedBracket(pre, points);
    }
  }

  /** Rows past an unreached one do not change the reference level. */
  lemma {:induction false} LastReachedIgnoresUnreached(ts: seq<Threshold>, k: nat, points: int)
    requires k <= |ts|
    requires forall j :: k <= j < |ts| ==> points < ts[j].minPoints
    ensures LastReached(ts, points) == LastReached(ts[..k], points)
  {
    if k < |ts| {
      var pre := ts[..|ts| - 1];
      assert pre[..k] == ts[..k];
      LastReachedIgnoresUnreached(pre, k, points);
    } else {
      assert ts[..k] == ts;
    }
  }

  /** The level reached with `points` cumulative points. */
  function LevelFor(points: int): (r: int)
    ensures 1 <= r <= |LevelThresholds|
  {
    ThresholdsWellFormed();
    LastReachedBracket(LevelThresholds, points);
    LastReached(LevelThresholds, points)
  }

  /** The level is the greatest level whose floor has been reached: its own
      floor is reached (for non-negative points), the next floor is not, and
      no reached row has a higher level. */
  lemma LevelForIsGreatestReached(points: int)
    ensures var r := LevelFor(points);
      && LevelThresholds[r - 1].level == r
      && (r > 1 || points >= 0 ==> LevelThresholds[r - 1].minPoints <= points)
      && (r < |LevelThresholds| ==> points < LevelThresholds[r].minPoints)
      && (forall i :: 0 <= i < |LevelThresholds| && LevelThresholds[i].minPoints <= points ==>
            LevelThresholds[i].level <= r)
  {
    ThresholdsWellFormed();
    LastReachedBracket(LevelThresholds, points);
  }

  /** Fewer than 100 points, negative totals included, is level 1. */
  lemma LevelForBelowFirstFloor(points: int)
    requires points < 100
    ensures LevelFor(points) == 1
  {
    LevelForIsGreatestReached(points);
  }

  /** More points never mean a lower level. */
  lemma LevelForMonotone(p: int, q: int)
    requires p <= q
    ensures LevelFor(p) <= LevelFor(q)
  {
    ThresholdsWellFormed();
    LevelForIsGreatestReached(p);
    LevelForIsGreatestReached(q);
  }

  /** The scan of the level table: keep the level of each row whose floor is
      reached and stop at the first row that is not. */
  method CalculateLevel(points: int) returns (level: int)
    ensures level == LevelFor(points)
    ensures 1 <= level <= 10
  {
    ThresholdsWellFormed();
    level := 1;
    var i := 0;
    while i < |LevelThresholds|
      invariant 0 <= i <= |LevelThresholds|
      invariant level == LastReached(LevelThresholds[..i], points)
    {
      if points >= LevelThresholds[i].minPoints {
        assert LevelThresholds[..i + 1][..i] == LevelThresholds[..i];
        level := LevelThresholds[i].level;
      } else {
        LastReachedIgnoresUnreached(LevelThresholds, i, points);
        break;
      }
      i := i + 1;
    }
    assert i == |LevelThresholds| ==> LevelThresholds[..i] == LevelThresholds;
  }

  /** The index of the first row whose level exceeds `level`, or |ts| when
      there is none (an `Array.find` that found nothing). */
  function FirstAbove(ts: seq<Threshold>, level: int): (k: nat)
    ensures k <= |ts|
    ensures forall j :: 0 <= j < k ==> ts[j].level <= level
    ensures k < |ts| ==> ts[k].level > level
  {
    if ts == [] then 0
    else if ts[0].level > level then 0
    else 1 + FirstAbove(ts[1..], level)
  }

  /** Points still missing to reach the next level; 0 at the top level.
      Below the top it is the exact, strictly positive gap to the floor of
      the level above. */
  function GetPointsForNextLevel(currentPoints: int): (r: int)
    ensures currentPoints < MaxLevelPoints ==>
      && LevelFor(currentPoints) < |LevelThresholds|
      && r > 0
      && currentPoints + r == LevelThresholds[LevelFor(currentPoints)].minPoints
    ensures currentPoints >= MaxLevelPoints ==> r == 0
  {
    var currentLevel := LevelFor(currentPoints);
    var next := FirstAbove(LevelThresholds, currentLevel);
    ThresholdsWellFormed();
    LevelForIsGreatestReached(currentPoints);
    assert next == currentLevel by {
      if currentLevel < |LevelThresholds| {
        assert LevelThresholds[currentLevel].level > currentLevel;
      }
    }
    if next < |LevelThresholds| then LevelThresholds[next].minPoints - currentPoints
    else 0
  }
}
