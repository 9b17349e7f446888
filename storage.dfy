/**
 * The persisted snapshot of the player state and its decoding. The storage
 * engine and the JSON text are outside the model: a snapshot here is the
 * parsed record, in which any field may be missing.
 */
module Storage {
  import opened Wrappers
  import opened Locations
  import opened Visits

  /** The saved record: points, level, the visited ids as an array and the
      last-visit map as an array of [id, time] entries. */
  datatype StoredData = StoredData(
    userPoints: Option<int>,
    userLevel: Option<int>,
    visitedLocations: Option<seq<int>>,
    lastVisitTimes: Option<seq<(int, int)>>)

  /** `x || fallback` on a stored number: a stored non-zero number is kept, a
      missing field and 0 (both falsy) give the fallback, so a non-zero
      fallback never yields 0. */
  function NumberOr(x: Option<int>, fallback: int): (r: int)
    ensures x.Some? && x.value != 0 ==> r == x.value
    ensures x.None? || x.value == 0 ==> r == fallback
    ensures fallback != 0 ==> r != 0
  {
    if x.Some? && x.value != 0 then x.value else fallback
  }

  /** `x || []` on a stored array: any array, even an empty one, is truthy and
      kept as it is; only a missing field gives the empty array. */
  function ArrayOr<T>(x: Option<seq<T>>): (r: seq<T>)
    ensures x.Some? ==> r == x.value
    ensures x.None? ==> r == []
  {
    if x.Some? then x.value else []
  }

  /** `new Map(entries)`: every id of the entries becomes a key, and a key
      whose entry is not overwritten later keeps that entry's time. */
  function MapFromEntries(entries: seq<(int, int)>): (m: map<int, int>)
    ensures m.Keys == set e | e in entries :: e.0
    ensures forall i :: 0 <= i < |entries| && KeyIsLast(entries, i) ==> m[entries[i].0] == entries[i].1
  {
    if entries == [] then map[]
    else
      var last := entries[|entries| - 1];
      var m := MapFromEntries(entries[..|entries| - 1]);
      assert entries == entries[..|entries| - 1] + [last];
      m[last.0 := last.1]
  }

  /** No entry after position i has the same key. */
  ghost predicate KeyIsLast(entries: seq<(int, int)>, i: int)
    requires 0 <= i < |entries|
  {
    forall j :: i < j < |entries| ==> entries[j].0 != entries[i].0
  }

  /** The decoding done on load: missing (or zero) points give 0, a missing
      (or zero) level gives 1, missing arrays give the empty set and map.
      The level is taken as stored, not recomputed from the points. */
  function Decode(data: StoredData): (r: Progress)
    ensures data.userPoints.Some? ==> r.points == data.userPoints.value
    ensures data.userPoints.None? ==> r.points == 0
    ensures r.level != 0
    ensures data.userLevel.Some? && data.userLevel.value != 0 ==> r.level == data.userLevel.value
    ensures data.userLevel.None? || data.userLevel.value == 0 ==> r.level == 1
    ensures forall x :: x in r.visited <==> data.visitedLocations.Some? && x in data.visitedLocations.value
    ensures data.lastVisitTimes.None? ==> r.lastVisit == map[]
    ensures data.lastVisitTimes.Some? ==> r.lastVisit.Keys == set e | e in data.lastVisitTimes.value :: e.0
    ensures data.lastVisitTimes.Some? ==>
      forall i :: 0 <= i < |data.lastVisitTimes.value| && KeyIsLast(data.lastVisitTimes.value, i) ==>
        r.lastVisit[data.lastVisitTimes.value[i].0] == data.lastVisitTimes.value[i].1
  {
    Progress(
      NumberOr(data.userPoints, 0),
      NumberOr(data.userLevel, 1),
      (set x | x in ArrayOr(data.visitedLocations)),
      MapFromEntries(ArrayOr(data.lastVisitTimes)))
  }

  lemma HasElement(s: set<int>)
    requires |s| > 0
    ensures exists x :: x in s
  {
    if forall x :: x !in s {
      assert false;
    }
  }

  /** `Array.from(set)`: each element exactly once (in some order). */
  ghost function SetToArray(s: set<int>): (xs: seq<int>)
    ensures forall x :: x in xs <==> x in s
    ensures forall i, j :: 0 <= i < j < |xs| ==> xs[i] != xs[j]
    decreases |s|
  {
    if |s| == 0 then []
    else
      HasElement(s);
      var x :| x in s;
      SetToArray(s - {x}) + [x]
  }

  /** `Array.from(map.entries())`: each key once, paired with its value. */
  ghost function MapToEntries(m: map<int, int>): (es: seq<(int, int)>)
    ensures forall i :: 0 <= i < |es| ==> es[i].0 in m && m[es[i].0] == es[i].1
    ensures forall k :: k in m ==> (k, m[k]) in es
    ensures forall i, j :: 0 <= i < j < |es| ==> es[i].0 != es[j].0
    decreases |m|
  {
    if |m| == 0 then []
    else
      HasElement(m.Keys);
      var k :| k in m.Keys;
      var rest := m - {k};
      assert rest.Keys == m.Keys - {k};
      var es := MapToEntries(rest) + [(k, m[k])];
      assert forall k' :: k' in rest ==> (k', m[k']) in es;
      es
  }

  /** The record written on save: points and level as they are (what the
      arrays hold is stated by EncodeContents). */
  ghost function Encode(p: Progress): (r: StoredData)
    ensures r.userPoints == Some(p.points) && r.userLevel == Some(p.level)
  {
    StoredData(Some(p.points), Some(p.level), Some(SetToArray(p.visited)), Some(MapToEntries(p.lastVisit)))
  }

  /** The record written on save has every field present, the numbers as
      they are, each visited id once, and each timestamp as an [id, time]
      entry. */
  lemma EncodeContents(p: Progress)
    ensures var r := Encode(p);
      && r.userPoints == Some(p.points) && r.userLevel == Some(p.level)
      && r.visitedLocations.Some? && r.lastVisitTimes.Some?
      && (forall x :: x in r.visitedLocations.value <==> x in p.visited)
      && (forall k :: k in p.lastVisit ==> (k, p.lastVisit[k]) in r.lastVisitTimes.value)
      && (forall e :: e in r.lastVisitTimes.value ==> e.0 in p.lastVisit && p.lastVisit[e.0] == e.1)
  {
  }

  /** Saving and loading again gives back the same state, provided the level is
      not 0 (a stored 0 reads back as level 1). */
  lemma DecodeEncode(p: Progress)
    requires p.level != 0
    ensures Decode(Encode(p)) == p
  {
    EntriesRoundTrip(p.lastVisit);
    assert (set x | x in SetToArray(p.visited)) == p.visited;
  }

  /** Rebuilding a map from its entries gives the map back. */
  lemma EntriesRoundTrip(m: map<int, int>)
    ensures MapFromEntries(MapToEntries(m)) == m
  {
    var es := MapToEntries(m);
    var r := MapFromEntries(es);
    forall k | k in m ensures k in r && r[k] == m[k] {
      assert (k, m[k]) in es;
      var i :| 0 <= i < |es| && es[i] == (k, m[k]);
      assert KeyIsLast(es, i);
    }
    forall k | k in r ensures k in m {
      var e :| e in es && e.0 == k;
      var i :| 0 <= i < |es| && es[i] == e;
    }
    MapsEqual(r, m);
  }

  lemma MapsEqual(a: map<int, int>, b: map<int, int>)
    requires forall k :: k in a <==> k in b
    requires forall k :: k in a ==> a[k] == b[k]
    ensures a == b
  {
    assert forall k :: k in a <==> k in b;
    assert forall k :: k in a ==> a[k] == b[k];
  }

  /** Every state the engine keeps consistent survives a save and a load. */
  lemma DecodeEncodeConsistent(p: Progress)
    requires Consistent(p)
    ensures Decode(Encode(p)) == p
  {
    DecodeEncode(p);
  }

  /** Loading, saving and loading again gives the state of the first load:
      a loaded level is never 0, so the round trip always applies. */
  lemma LoadSaveLoad(data: StoredData)
    ensures Decode(Encode(Decode(data))) == Decode(data)
  {
    DecodeEncode(Decode(data));
  }

  /** A record of 0 points at level 5 loads as exactly that state, which does
      not keep the level invariant (see Visits.LoadedLevelCanDrop). */
  lemma DecodeHighLevel()
    ensures Decode(StoredData(Some(0), Some(5), None, None)) == Progress(0, 5, {}, map[])
    ensures !Consistent(Decode(StoredData(Some(0), Some(5), None, None)))
  {
    LevelForBelowFirstFloor(0);
  }

  /** A record with every field missing decodes to a new player's state. */
  lemma DecodeMissingFields()
    ensures Decode(StoredData(None, None, None, None)) == InitialProgress
  {
    assert MapFromEntries([]) == map[];
  }

  /** Loading does not re-establish the level invariant: a record whose level
      disagrees with its points is taken as it is. */
  lemma DecodeKeepsStoredLevel()
    ensures var p := Decode(StoredData(Some(500), Some(1), None, None));
      p.level == 1 && LevelFor(p.points) == 4 && !Consistent(p)
  {
    LevelForIsGreatestReached(500);
    ThresholdsWellFormed();
  }
}
