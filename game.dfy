/**
 * The mutable game state: the player's points, level, visited ids and
 * last-visit times, changed in place by visits. Each method is proved to
 * follow the value-level engine of module Visits.
 */
module Game {
  import opened Wrappers
  import opened Locations
  import opened Visits
  import opened Storage

  class GameState {
    var userPoints: int
    var userLevel: int
    var visitedLocations: set<int>
    var lastVisitTimes: map<int, int>
    /** What the browser storage holds; every visit saves the new state there. */
    ghost var storage: Option<StoredData>

    /** The fields as a value. */
    ghost function State(): Progress
      reads this`userPoints, this`userLevel, this`visitedLocations, this`lastVisitTimes
    {
      Progress(userPoints, userLevel, visitedLocations, lastVisitTimes)
    }

    /** A new game starts from the defaults, then loads what was saved, if anything. */
    constructor (saved: Option<StoredData>)
      ensures State() == if saved.Some? then Decode(saved.value) else InitialProgress
      ensures saved.None? ==> Consistent(State())
      ensures storage == saved
    {
      userPoints := 0;
      userLevel := 1;
      visitedLocations := {};
      lastVisitTimes := map[];
      storage := saved;
      new;
      InitialConsistent();
      LoadFromStorage(saved);
    }

    /** Overwrite every field from a saved record. `None` stands for nothing
        saved or a record that could not be parsed: the state is left as it was. */
    method LoadFromStorage(saved: Option<StoredData>)
      modifies this
      ensures saved.None? ==> State() == old(State())
      ensures saved.Some? ==> State() == Decode(saved.value)
      ensures storage == old(storage)
    {
      if saved.Some? {
        var data := saved.value;
        userPoints := NumberOr(data.userPoints, 0);
        userLevel := NumberOr(data.userLevel, 1);
        visitedLocations := set x | x in ArrayOr(data.visitedLocations);
        lastVisitTimes := MapFromEntries(ArrayOr(data.lastVisitTimes));
      }
    }

    /** Write the snapshot of the current state to the storage. */
    method SaveToStorage()
      modifies this`storage
      ensures storage == Some(Encode(State()))
    {
      storage := Some(Encode(State()));
    }

    /** Credit a visit to `location`; `visitTime` is the clock reading taken
        by the visit. The id joins the visited set, its time is recorded,
        the award (with the first-visit bonus when the id was not yet visited)
        is added and the level recomputed; nothing else changes. */
    method VisitLocation(location: Location, visitTime: int) returns (event: VisitEvent)
      modifies this
      ensures (State(), event) == Visit(old(State()), location, visitTime)
      ensures visitedLocations == old(visitedLocations) + {location.id}
      ensures lastVisitTimes == old(lastVisitTimes)[location.id := visitTime]
      ensures event.isFirstVisit == (location.id !in old(visitedLocations))
      ensures event.pointsAwarded == Award(location, event.isFirstVisit)
      ensures userPoints == old(userPoints) + event.pointsAwarded
      ensures userLevel == LevelFor(userPoints)
      ensures Consistent(old(State())) ==> Consistent(State())
      ensures location.points >= 0 ==> old(userPoints) <= userPoints
      ensures Consistent(old(State())) && location.points >= 0 ==> old(userLevel) <= userLevel
      ensures storage == Some(Encode(State()))
    {
      if Consistent(State()) {
        VisitPreserves(State(), location, visitTime);
      }
      var wasVisited := location.id in visitedLocations;
      visitedLocations := visitedLocations + {location.id};
      lastVisitTimes := lastVisitTimes[location.id := visitTime];

      var pointsAwarded := location.points;
      var multiplier := MultiplierTenths(location.category);
      pointsAwarded := RoundTenths(pointsAwarded * multiplier);
      if !wasVisited {
        pointsAwarded := RoundTenths(pointsAwarded * 15);
      }

      userPoints := userPoints + pointsAwarded;
      userLevel := CalculateLevel(userPoints);
      event := VisitEvent(location, pointsAwarded, !wasVisited);
      assert (State(), event) == Visit(old(State()), location, visitTime);
      SaveToStorage();
    }

    /** The check made for one catalogue entry during a reading: visit it when
        it is in range and its cooldown is over, otherwise change nothing. */
    method CheckLocation(location: Location, distance: real, now: int, visitTime: int)
      returns (events: seq<VisitEvent>)
      modifies this
      ensures CanVisit(old(State()), location, distance, now) ==>
        var v := Visit(old(State()), location, visitTime);
        State() == v.0 && events == [v.1] && storage == Some(Encode(State()))
      ensures !CanVisit(old(State()), location, distance, now) ==>
        State() == old(State()) && events == [] && storage == old(storage)
    {
      events := [];
      if distance <= Max(location.radius, VisitDistance) as real {
        var lastVisit := if location.id in lastVisitTimes then Some(lastVisitTimes[location.id]) else None;
        var canRevisit := lastVisit.None? || lastVisit.value == 0 || now - lastVisit.value >= RevisitCooldown;
        if canRevisit {
          var event := VisitLocation(location, visitTime);
          events := [event];
        }
      }
    }

    /** One reading: walk the catalogue once, in order, and visit every
        location in range whose cooldown is over. `distances` is `None` when
        there is no position yet; otherwise `distances[i]` is the distance to
        catalogue entry i. `now` is the clock read before the walk and
        `visitTimes[i]` the reading a visit of entry i takes. */
    method CheckNearbyLocations(distances: Option<seq<real>>, now: int, visitTimes: seq<int>)
      returns (events: seq<VisitEvent>)
      requires distances.Some? ==> |distances.value| == |CampusLocations|
      requires |visitTimes| == |CampusLocations|
      modifies this
      ensures distances.None? ==> State() == old(State()) && events == []
      ensures distances.Some? ==>
        (State(), events) == Pass(old(State()), CampusLocations, distances.value, now, visitTimes)
      ensures events == [] ==> storage == old(storage)
      ensures events != [] ==> storage == Some(Encode(State()))
      ensures distances.Some? ==>
        events == IndependentEvents(old(State()), CampusLocations, distances.value, now)
      ensures Consistent(old(State())) ==> Consistent(State())
      ensures old(visitedLocations) <= visitedLocations
      ensures old(userPoints) <= userPoints
      ensures Consistent(old(State())) ==> old(userLevel) <= userLevel
    {
      events := [];
      if distances.None? {
        return;
      }
      CatalogueWellFormed();
      events := CheckLocations(CampusLocations, distances.value, now, visitTimes);
    }

    /** The walk of CheckNearbyLocations over a catalogue `locs`. */
    method CheckLocations(locs: seq<Location>, dists: seq<real>, now: int, visitTimes: seq<int>)
      returns (events: seq<VisitEvent>)
      requires |dists| == |locs| && |visitTimes| == |locs|
      modifies this
      ensures (State(), events) == Pass(old(State()), locs, dists, now, visitTimes)
      ensures events == [] ==> storage == old(storage)
      ensures events != [] ==> storage == Some(Encode(State()))
      ensures DistinctIds(locs) ==> events == IndependentEvents(old(State()), locs, dists, now)
      ensures Consistent(old(State())) ==> Consistent(State())
      ensures old(visitedLocations) <= visitedLocations
      ensures (forall loc :: loc in locs ==> loc.points >= 0) ==> old(userPoints) <= userPoints
      ensures Consistent(old(State())) && (forall loc :: loc in locs ==> loc.points >= 0) ==>
        old(userLevel) <= userLevel
    {
      ghost var start := State();
      events := WalkLocations(locs, dists, now, visitTimes);
      PassSummary(start, State(), events, locs, dists, now, visitTimes);
    }

    /** The loop of CheckLocations: judge each location in turn, in order. */
    method WalkLocations(locs: seq<Location>, dists: seq<real>, now: int, visitTimes: seq<int>)
      returns (events: seq<VisitEvent>)
      requires |dists| == |locs| && |visitTimes| == |locs|
      modifies this
      ensures (State(), events) == Pass(old(State()), locs, dists, now, visitTimes)
      ensures events == [] ==> storage == old(storage)
      ensures events != [] ==> storage == Some(Encode(State()))
    {
      ghost var start := State();
      ghost var goal := Pass(start, locs, dists, now, visitTimes);
      PassRemainingStart(start, locs, dists, now, visitTimes);
      events := [];
      ghost var saved := start;
      var i := 0;
      while i < |locs|
        invariant 0 <= i <= |locs|
        invariant PassRemaining(State(), events, locs, dists, now, visitTimes, i, goal)
        invariant events == [] ==> storage == old(storage)
        invariant events != [] ==> saved == State() && storage == Some(Encode(saved))
      {
        ghost var before := State();
        var visited := CheckLocation(locs[i], dists[i], now, visitTimes[i]);
        PassStep(before, State(), events, visited, locs, dists, now, visitTimes, i, goal);
        if visited != [] {
          saved := State();
        }
        events := events + visited;
        i := i + 1;
      }
      PassRemainingDone(State(), events, locs, dists, now, visitTimes, goal);
    }
  }
}
