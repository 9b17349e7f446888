/**
 * The visit engine as values: the player's progress, the award of one visit,
 * the effect of one visit, and one pass over the catalogue for a position
 * reading. The class GameState (module Game) is proved to follow these.
 */
module Visits {
  import opened Locations

  /** The player state the engine reads and changes. */
  datatype Progress = Progress(
    points: int,
    level: int,
    visited: set<int>,          // ids of every location ever visited
    lastVisit: map<int, int>)   // id -> epoch milliseconds of the latest visit

  /** What a visit reports to the notification: where, how much, and whether
      it was the first visit. */
  datatype VisitEvent = VisitEvent(location: Location, pointsAwarded: int, isFirstVisit: bool)

  /** The state of a new player. */
  const InitialProgress := Progress(0, 1, {}, map[])

  /** The invariants the engine keeps: timestamps exist exactly for the visited
      ids, and the level is the one the points give. */
  ghost predicate Consistent(p: Progress) {
    p.lastVisit.Keys == p.visited && p.level == LevelFor(p.points)
  }

  /** A new player's state already keeps the invariants. */
  lemma InitialConsistent()
    ensures Consistent(InitialProgress)
  {
    LevelForBelowFirstFloor(0);
  }

  function Max(a: int, b: int): (m: int)
    ensures m >= a && m >= b && (m == a || m == b)
  {
    if a >= b then a else b
  }

  /** Math.round(n / 10): the integer nearest to n / 10, halves rounded up. */
  function RoundTenths(n: int): (r: int)
    ensures 10 * r - 5 <= n < 10 * r + 5
  {
    (n + 5) / 10
  }

  /** The award before any bonus: base points times the category multiplier,
      rounded to the nearest integer; never negative for non-negative points. */
  function BaseAward(loc: Location): (r: int)
    ensures 10 * r - 5 <= loc.points * MultiplierTenths(loc.category) < 10 * r + 5
    ensures loc.points >= 0 ==> r >= 0
  {
    RoundTenths(loc.points * MultiplierTenths(loc.category))
  }

  /** The award of a visit: a repeat visit earns the base award; a first visit
      earns 1.5 times the base award, rounded again, which for non-negative
      points is never less than the base award. */
  function Award(loc: Location, firstVisit: bool): (r: int)
    ensures !firstVisit ==> r == BaseAward(loc)
    ensures firstVisit ==> 10 * r - 5 <= BaseAward(loc) * 15 < 10 * r + 5
    ensures loc.points >= 0 ==> 0 <= BaseAward(loc) <= r
  {
    var base := BaseAward(loc);
    if firstVisit then RoundTenths(base * 15) else base
  }

  /** A category the multiplier table does not know earns exactly the base points. */
  lemma UnknownCategoryAward(loc: Location)
    requires loc.category !in CategoryMultiplierTenths
    ensures Award(loc, false) == loc.points
  {
  }

  /** Main Library (50 points, academic): 90 on the first visit, 60 afterwards. */
  lemma MainLibraryAwards()
    ensures CampusLocations[0].name == "🏛️ Main Library"
    ensures Award(CampusLocations[0], true) == 90
    ensures Award(CampusLocations[0], false) == 60
  {
  }

  /** Within reach: the boundary is inclusive, and a location is reachable
      within its own radius and always within the global visit distance. */
  predicate InVisitRange(loc: Location, distance: real): (b: bool)
    ensures distance <= loc.radius as real ==> b
    ensures distance <= VisitDistance as real ==> b
    ensures b ==> distance <= loc.radius as real || distance <= VisitDistance as real
  {
    distance <= Max(loc.radius, VisitDistance) as real
  }

  /** The cooldown is over when there is no timestamp, when the timestamp is 0
      (falsy, so read as "never visited"), or when an hour has passed since it. */
  predicate CooldownOver(lastVisit: map<int, int>, id: int, now: int): (b: bool)
    ensures id !in lastVisit ==> b
    ensures id in lastVisit && lastVisit[id] == 0 ==> b
    ensures id in lastVisit && lastVisit[id] != 0 ==> (b <==> lastVisit[id] + RevisitCooldown <= now)
  {
    id !in lastVisit || lastVisit[id] == 0 || now - lastVisit[id] >= RevisitCooldown
  }

  /** Once the cooldown is over it stays over as the clock advances. */
  lemma CooldownStaysOver(lastVisit: map<int, int>, id: int, now: int, later: int)
    requires CooldownOver(lastVisit, id, now) && now <= later
    ensures CooldownOver(lastVisit, id, later)
  {
  }

  predicate CanVisit(p: Progress, loc: Location, distance: real, now: int) {
    InVisitRange(loc, distance) && CooldownOver(p.lastVisit, loc.id, now)
  }

  /** One visit: record the id and the time, award the points (with the bonus
      exactly when the id was not yet visited), recompute the level. */
  function Visit(p: Progress, loc: Location, visitTime: int): (r: (Progress, VisitEvent))
    ensures r.1.location == loc && r.1.isFirstVisit == (loc.id !in p.visited)
    ensures r.1.pointsAwarded == Award(loc, r.1.isFirstVisit)
    ensures r.0.points == p.points + r.1.pointsAwarded && r.0.level == LevelFor(r.0.points)
    ensures r.0.visited == p.visited + {loc.id}
    ensures r.0.lastVisit == p.lastVisit[loc.id := visitTime]
  {
    var first := loc.id !in p.visited;
    var award := Award(loc, first);
    (Progress(p.points + award, LevelFor(p.points + award),
              p.visited + {loc.id}, p.lastVisit[loc.id := visitTime]),
     VisitEvent(loc, award, first))
  }

  /** A visit keeps the invariants, and with non-negative base points it only
      adds: points, level, visited ids and timestamped ids never shrink. */
  lemma VisitPreserves(p: Progress, loc: Location, visitTime: int)
    requires Consistent(p)
    ensures var q := Visit(p, loc, visitTime).0;
      && Consistent(q)
      && loc.id in q.visited && q.lastVisit[loc.id] == visitTime
      && p.visited <= q.visited
      && (loc.points >= 0 ==> p.points <= q.points && p.level <= q.level)
  {
    var q := Visit(p, loc, visitTime).0;
    if loc.points >= 0 {
      LevelForMonotone(p.points, q.points);
    }
  }

  /** One pass over `locs` for a position reading: `dists[i]` is the distance
      to `locs[i]`, `now` the clock read before the pass (cooldowns), and
      `visitTimes[i]` the clock read when `locs[i]` is credited. Locations are
      examined once each, in order; the pass returns the new state and the
      visits it made; a pass that visits nothing leaves the state as it was. */
  function Pass(p: Progress, locs: seq<Location>, dists: seq<real>, now: int, visitTimes: seq<int>)
    : (r: (Progress, seq<VisitEvent>))
    requires |dists| == |locs| && |visitTimes| == |locs|
    ensures r.1 == [] ==> r.0 == p
    decreases |locs|
  {
    if locs == [] then (p, [])
    else if CanVisit(p, locs[0], dists[0], now) then
      var (q, e) := Visit(p, locs[0], visitTimes[0]);
      var (r, es) := Pass(q, locs[1..], dists[1..], now, visitTimes[1..]);
      (r, [e] + es)
    else
      Pass(p, locs[1..], dists[1..], now, visitTimes[1..])
  }

  /** A walk over the catalogue that has judged the locations before `i`,
      reached state `p` and reported `events`, finishes the pass `goal`. */
  ghost predicate PassRemaining(p: Progress, events: seq<VisitEvent>, locs: seq<Location>, dists: seq<real>,
                                now: int, visitTimes: seq<int>, i: nat, goal: (Progress, seq<VisitEvent>))
    requires |dists| == |locs| && |visitTimes| == |locs| && i <= |locs|
  {
    var rest := Pass(p, locs[i..], dists[i..], now, visitTimes[i..]);
    rest.0 == goal.0 && events + rest.1 == goal.1
  }

  lemma PassRemainingStart(p: Progress, locs: seq<Location>, dists: seq<real>, now: int, visitTimes: seq<int>)
    requires |dists| == |locs| && |visitTimes| == |locs|
    ensures PassRemaining(p, [], locs, dists, now, visitTimes, 0, Pass(p, locs, dists, now, visitTimes))
  {
    assert locs[0..] == locs && dists[0..] == dists && visitTimes[0..] == visitTimes;
  }

  lemma PassRemainingDone(p: Progress, events: seq<VisitEvent>, locs: seq<Location>, dists: seq<real>,
                          now: int, visitTimes: seq<int>, goal: (Progress, seq<VisitEvent>))
    requires |dists| == |locs| && |visitTimes| == |locs|
    requires PassRemaining(p, events, locs, dists, now, visitTimes, |locs|, goal)
    ensures p == goal.0 && events == goal.1
  {
    assert locs[|locs|..] == [];
    assert events + [] == events;
  }

  /** One step of the walk: judging `locs[i]` from `p` gives `q` and `visited`
      exactly as the pass does, so the rest of the pass continues from `q`. */
  lemma PassStep(p: Progress, q: Progress, events: seq<VisitEvent>, visited: seq<VisitEvent>,
                 locs: seq<Location>, dists: seq<real>, now: int, visitTimes: seq<int>, i: nat,
                 goal: (Progress, seq<VisitEvent>))
    requires |dists| == |locs| && |visitTimes| == |locs| && i < |locs|
    requires PassRemaining(p, events, locs, dists, now, visitTimes, i, goal)
    requires CanVisit(p, locs[i], dists[i], now) ==>
      var v := Visit(p, locs[i], visitTimes[i]);
      q == v.0 && visited == [v.1]
    requires !CanVisit(p, locs[i], dists[i], now) ==> q == p && visited == []
    ensures PassRemaining(q, events + visited, locs, dists, now, visitTimes, i + 1, goal)
  {
    assert locs[i..][1..] == locs[i + 1..];
    assert dists[i..][1..] == dists[i + 1..];
    assert visitTimes[i..][1..] == visitTimes[i + 1..];
    var rest := Pass(q, locs[i + 1..], dists[i + 1..], now, visitTimes[i + 1..]);
    if CanVisit(p, locs[i], dists[i], now) {
      assert Pass(p, locs[i..], dists[i..], now, visitTimes[i..]) == (rest.0, visited + rest.1);
      assert events + (visited + rest.1) == (events + visited) + rest.1;
    } else {
      assert Pass(p, locs[i..], dists[i..], now, visitTimes[i..]) == rest;
      assert events + visited == events;
    }
  }

  /** The sum of the awards of a list of visits. */
  function TotalAwarded(es: seq<VisitEvent>): int {
    if es == [] then 0 else es[0].pointsAwarded + TotalAwarded(es[1..])
  }

  function EventIds(es: seq<VisitEvent>): set<int> {
    set e | e in es :: e.location.id
  }

  /** Events and state agree: the points grow by exactly the awards reported,
      and the visited set and the timestamped ids grow by exactly the ids
      reported, all of them catalogue locations. */
  lemma {:induction false} PassAccounting(p: Progress, locs: seq<Location>, dists: seq<real>, now: int, visitTimes: seq<int>)
    requires |dists| == |locs| && |visitTimes| == |locs|
    ensures var (q, es) := Pass(p, locs, dists, now, visitTimes);
      && q.points == p.points + TotalAwarded(es)
      && q.visited == p.visited + EventIds(es)
      && q.lastVisit.Keys == p.lastVisit.Keys + EventIds(es)
      && (forall e :: e in es ==> e.location in locs)
    decreases |locs|
  {
    if locs != [] {
      if CanVisit(p, locs[0], dists[0], now) {
        var (q, e) := Visit(p, locs[0], visitTimes[0]);
        PassAccounting(q, locs[1..], dists[1..], now, visitTimes[1..]);
        var es := Pass(q, locs[1..], dists[1..], now, visitTimes[1..]).1;
        assert EventIds([e] + es) == {e.location.id} + EventIds(es);
        assert ([e] + es)[1..] == es;
      } else {
        PassAccounting(p, locs[1..], dists[1..], now, visitTimes[1..]);
      }
    }
  }

  /** A pass keeps the invariants, and over locations with non-negative base
      points it never lowers points, level or the visited set. */
  lemma {:induction false} PassPreserves(p: Progress, locs: seq<Location>, dists: seq<real>, now: int, visitTimes: seq<int>)
    requires |dists| == |locs| && |visitTimes| == |locs|
    requires Consistent(p)
    ensures var q := Pass(p, locs, dists, now, visitTimes).0;
      && Consistent(q)
      && p.visited <= q.visited
      && ((forall loc :: loc in locs ==> loc.points >= 0) ==> p.points <= q.points && p.level <= q.level)
    decreases |locs|
  {
    if locs != [] {
      if CanVisit(p, locs[0], dists[0], now) {
        var q := Visit(p, locs[0], visitTimes[0]).0;
        VisitPreserves(p, locs[0], visitTimes[0]);
        PassPreserves(q, locs[1..], dists[1..], now, visitTimes[1..]);
      } else {
        PassPreserves(p, locs[1..], dists[1..], now, visitTimes[1..]);
      }
      var q := Pass(p, locs, dists, now, visitTimes).0;
      if forall loc :: loc in locs ==> loc.points >= 0 {
        LevelForMonotone(p.points, q.points);
      }
    }
  }

  /** A pass makes at most one visit per location it examines. */
  lemma {:induction false} PassLength(p: Progress, locs: seq<Location>, dists: seq<real>, now: int, visitTimes: seq<int>)
    requires |dists| == |locs| && |visitTimes| == |locs|
    ensures |Pass(p, locs, dists, now, visitTimes).1| <= |locs|
    decreases |locs|
  {
    if locs != [] {
      if CanVisit(p, locs[0], dists[0], now) {
        PassLength(Visit(p, locs[0], visitTimes[0]).0, locs[1..], dists[1..], now, visitTimes[1..]);
      } else {
        PassLength(p, locs[1..], dists[1..], now, visitTimes[1..]);
      }
    }
  }

  /** Over locations with non-negative points a pass never lowers the points,
      whatever the state it starts from. */
  lemma {:induction false} PassPointsGrow(p: Progress, locs: seq<Location>, dists: seq<real>, now: int, visitTimes: seq<int>)
    requires |dists| == |locs| && |visitTimes| == |locs|
    requires forall loc :: loc in locs ==> loc.points >= 0
    ensures p.points <= Pass(p, locs, dists, now, visitTimes).0.points
    decreases |locs|
  {
    if locs != [] {
      assert forall loc :: loc in locs[1..] ==> loc in locs;
      if CanVisit(p, locs[0], dists[0], now) {
        var q := Visit(p, locs[0], visitTimes[0]).0;
        assert locs[0] in locs;
        PassPointsGrow(q, locs[1..], dists[1..], now, visitTimes[1..]);
      } else {
        PassPointsGrow(p, locs[1..], dists[1..], now, visitTimes[1..]);
      }
    }
  }

  /** The level can fall when the state does not keep the invariants: a
      record saved as 0 points at level 5 loads as level 5, and one visit
      to Main Library recomputes the level from the points, giving 1. */
  lemma LoadedLevelCanDrop(t: int)
    ensures var p := Progress(0, 5, {}, map[]);
      var q := Visit(p, CampusLocations[0], t).0;
      q.points == 90 && q.level == 1 && q.level < p.level
  {
    MainLibraryAwards();
    LevelForBelowFirstFloor(90);
  }

  /** What a whole pass promises, gathered for the walk in module Game. */
  lemma PassSummary(p: Progress, q: Progress, es: seq<VisitEvent>,
                    locs: seq<Location>, dists: seq<real>, now: int, visitTimes: seq<int>)
    requires |dists| == |locs| && |visitTimes| == |locs|
    requires (q, es) == Pass(p, locs, dists, now, visitTimes)
    ensures DistinctIds(locs) ==> es == IndependentEvents(p, locs, dists, now)
    ensures Consistent(p) ==> Consistent(q)
    ensures p.visited <= q.visited
    ensures (forall loc :: loc in locs ==> loc.points >= 0) ==> p.points <= q.points
    ensures Consistent(p) && (forall loc :: loc in locs ==> loc.points >= 0) ==> p.level <= q.level
  {
    if forall loc :: loc in locs ==> loc.points >= 0 {
      PassPointsGrow(p, locs, dists, now, visitTimes);
    }
    if DistinctIds(locs) {
      PassIsIndependent(p, locs, dists, now, visitTimes);
    }
    if Consistent(p) {
      PassPreserves(p, locs, dists, now, visitTimes);
    }
    PassAccounting(p, locs, dists, now, visitTimes);
  }

  // ---------------------------------------------------------------------
  // Independence of the locations within one pass

  /** The visits a pass makes when every location is judged against the state
      before the pass (no visit influences another). */
  function IndependentEvents(p: Progress, locs: seq<Location>, dists: seq<real>, now: int): seq<VisitEvent>
    requires |dists| == |locs|
  {
    if locs == [] then []
    else
      var first := locs[0].id !in p.visited;
      (if CanVisit(p, locs[0], dists[0], now)
       then [VisitEvent(locs[0], Award(locs[0], first), first)]
       else [])
      + IndependentEvents(p, locs[1..], dists[1..], now)
  }

  /** Two states that say the same about `id`. */
  ghost predicate AgreeOn(p: Progress, q: Progress, id: int) {
    && (id in p.visited <==> id in q.visited)
    && (id in p.lastVisit <==> id in q.lastVisit)
    && (id in p.lastVisit ==> p.lastVisit[id] == q.lastVisit[id])
  }

  lemma {:induction false} IndependentEventsAgree(p: Progress, q: Progress, locs: seq<Location>, dists: seq<real>, now: int)
    requires |dists| == |locs|
    requires forall i :: 0 <= i < |locs| ==> AgreeOn(p, q, locs[i].id)
    ensures IndependentEvents(p, locs, dists, now) == IndependentEvents(q, locs, dists, now)
  {
    if locs != [] {
      assert AgreeOn(p, q, locs[0].id);
      IndependentEventsAgree(p, q, locs[1..], dists[1..], now);
    }
  }

  /** With distinct ids a pass credits each location at most once, and exactly
      the locations that are in range and out of cooldown before the pass. */
  lemma {:induction false} PassIsIndependent(p: Progress, locs: seq<Location>, dists: seq<real>, now: int, visitTimes: seq<int>)
    requires |dists| == |locs| && |visitTimes| == |locs|
    requires DistinctIds(locs)
    ensures Pass(p, locs, dists, now, visitTimes).1 == IndependentEvents(p, locs, dists, now)
    decreases |locs|
  {
    if locs != [] {
      var rest := locs[1..];
      assert DistinctIds(rest);
      if CanVisit(p, locs[0], dists[0], now) {
        var q := Visit(p, locs[0], visitTimes[0]).0;
        PassIsIndependent(q, rest, dists[1..], now, visitTimes[1..]);
        forall i | 0 <= i < |rest| ensures AgreeOn(p, q, rest[i].id) {
          assert rest[i] == locs[i + 1];
        }
        IndependentEventsAgree(q, p, rest, dists[1..], now);
      } else {
        PassIsIndependent(p, rest, dists[1..], now, visitTimes[1..]);
      }
    }
  }

  /** No two visits of a list are for the same location id. */
  ghost predicate DistinctEventIds(es: seq<VisitEvent>) {
    forall i, j :: 0 <= i < j < |es| ==> es[i].location.id != es[j].location.id
  }

  /** With distinct ids, no location is credited twice in one pass. */
  lemma {:induction false} PassCreditsOnce(p: Progress, locs: seq<Location>, dists: seq<real>, now: int, visitTimes: seq<int>)
    requires |dists| == |locs| && |visitTimes| == |locs|
    requires DistinctIds(locs)
    ensures DistinctEventIds(Pass(p, locs, dists, now, visitTimes).1)
    decreases |locs|
  {
    if locs != [] {
      var rest := locs[1..];
      assert DistinctIds(rest);
      if CanVisit(p, locs[0], dists[0], now) {
        var q := Visit(p, locs[0], visitTimes[0]).0;
        PassCreditsOnce(q, rest, dists[1..], now, visitTimes[1..]);
        PassAccounting(q, rest, dists[1..], now, visitTimes[1..]);
        var es := Pass(q, rest, dists[1..], now, visitTimes[1..]).1;
        forall e | e in es ensures e.location.id != locs[0].id {
          var k :| 0 <= k < |rest| && rest[k] == e.location;
          assert rest[k] == locs[k + 1];
        }
        var all := [Visit(p, locs[0], visitTimes[0]).1] + es;
        assert Pass(p, locs, dists, now, visitTimes).1 == all;
        forall i, j | 0 <= i < j < |all| ensures all[i].location.id != all[j].location.id {
          assert all[j] == es[j - 1];
          if i > 0 {
            assert all[i] == es[i - 1];
          }
        }
        assert DistinctEventIds(all);
      } else {
        PassCreditsOnce(p, rest, dists[1..], now, visitTimes[1..]);
        assert Pass(p, locs, dists, now, visitTimes) == Pass(p, rest, dists[1..], now, visitTimes[1..]);
      }
    }
  }

  /** A location still in its cooldown window is not credited and leaves the
      state untouched; an out-of-range one likewise. */
  lemma BlockedLocationChangesNothing(p: Progress, loc: Location, distance: real, now: int, visitTime: int)
    requires !InVisitRange(loc, distance) ||
             (loc.id in p.lastVisit && p.lastVisit[loc.id] != 0 && now - p.lastVisit[loc.id] < RevisitCooldown)
    ensures Pass(p, [loc], [distance], now, [visitTime]) == (p, [])
  {
  }

  /** The worked scenarios for Main Library (radius 30 m, multiplier 1.2):
      first visit at 10 m earns 90; a revisit two hours later earns 60; a
      revisit ten minutes later is refused; standing exactly at the radius
      counts as in range. */
  lemma MainLibraryScenarios(t0: int)
    requires t0 > 0
    ensures var lib := CampusLocations[0];
      var (s1, e1) := Pass(InitialProgress, [lib], [10.0], t0, [t0]);
      && e1 == [VisitEvent(lib, 90, true)] && s1.points == 90
      && Pass(s1, [lib], [10.0], t0 + 600000, [t0 + 600000]) == (s1, [])
      && Pass(s1, [lib], [10.0], t0 + 7200000, [t0 + 7200000]).1 == [VisitEvent(lib, 60, false)]
      && InVisitRange(lib, lib.radius as real)
  {
    MainLibraryAwards();
  }
}
