/**
 * The "nearby" list: every catalogue location paired with its distance,
 * keeping those within the nearby distance, sorted by increasing distance.
 */
module Nearby {
  import opened Locations

  datatype NearbyLocation = NearbyLocation(location: Location, distance: real)

  /** `locations.map(location => ({...location, distance}))`. */
  function WithDistances(locs: seq<Location>, dists: seq<real>): (r: seq<NearbyLocation>)
    requires |dists| == |locs|
    ensures |r| == |locs|
    ensures forall i :: 0 <= i < |r| ==> r[i] == NearbyLocation(locs[i], dists[i])
  {
    if locs == [] then []
    else [NearbyLocation(locs[0], dists[0])] + WithDistances(locs[1..], dists[1..])
  }

  /** `.filter(location => location.distance <= NEARBY_DISTANCE)`: every entry
      within the nearby distance is kept as often as it occurs, every other
      entry is dropped. */
  function WithinNearby(xs: seq<NearbyLocation>): (r: seq<NearbyLocation>)
    ensures forall x :: x in r <==> x in xs && x.distance <= NearbyDistance as real
    ensures forall y :: multiset(r)[y] == if y.distance <= NearbyDistance as real then multiset(xs)[y] else 0
    ensures |r| <= |xs|
  {
    if xs == [] then []
    else
      assert xs == [xs[0]] + xs[1..];
      if xs[0].distance <= NearbyDistance as real then [xs[0]] + WithinNearby(xs[1..])
      else WithinNearby(xs[1..])
  }

  ghost predicate SortedByDistance(xs: seq<NearbyLocation>) {
    forall i, j :: 0 <= i < j < |xs| ==> xs[i].distance <= xs[j].distance
  }

  /** Insert `x` before the first element at least as far (stable for equal distances
      when `x` came first). */
  function InsertByDistance(x: NearbyLocation, xs: seq<NearbyLocation>): (r: seq<NearbyLocation>)
    requires SortedByDistance(xs)
    ensures SortedByDistance(r)
    ensures multiset(r) == multiset(xs) + multiset{x}
    ensures |r| == |xs| + 1 && (r[0] == x || (xs != [] && r[0] == xs[0]))
  {
    if xs == [] || x.distance <= xs[0].distance then
      [x] + xs
    else
      var rest := InsertByDistance(x, xs[1..]);
      assert xs == [xs[0]] + xs[1..];
      assert xs[0].distance <= rest[0].distance;
      [xs[0]] + rest
  }

  /** `.sort((a, b) => a.distance - b.distance)`: ascending distance, same elements. */
  function SortByDistance(xs: seq<NearbyLocation>): (r: seq<NearbyLocation>)
    ensures SortedByDistance(r)
    ensures multiset(r) == multiset(xs)
  {
    if xs == [] then []
    else
      assert xs == [xs[0]] + xs[1..];
      InsertByDistance(xs[0], SortByDistance(xs[1..]))
  }

  /** The whole pipeline: sorted by distance, and never longer than the catalogue. */
  function NearbyLocations(locs: seq<Location>, dists: seq<real>): (r: seq<NearbyLocation>)
    requires |dists| == |locs|
    ensures SortedByDistance(r)
    ensures |r| <= |locs|
  {
    SortByDistance(WithinNearby(WithDistances(locs, dists)))
  }

  /** The nearby list holds exactly the catalogue locations whose distance is
      at most the nearby distance, each with its own distance, and each as often
      as the catalogue lists it: once when the ids are distinct. */
  lemma NearbyLocationsSpec(locs: seq<Location>, dists: seq<real>)
    requires |dists| == |locs|
    ensures var r := NearbyLocations(locs, dists);
      && (forall x :: x in r <==>
            exists i :: 0 <= i < |locs| && x == NearbyLocation(locs[i], dists[i]) &&
                        dists[i] <= NearbyDistance as real)
      && (forall y :: multiset(r)[y] ==
            if y.distance <= NearbyDistance as real then multiset(WithDistances(locs, dists))[y] else 0)
      && (DistinctIds(locs) ==>
            forall i :: 0 <= i < |locs| && dists[i] <= NearbyDistance as real ==>
              multiset(r)[NearbyLocation(locs[i], dists[i])] == 1)
  {
    var all := WithDistances(locs, dists);
    var kept := WithinNearby(all);
    var r := SortByDistance(kept);
    forall x ensures x in r <==> x in kept {
      assert x in r <==> x in multiset(r);
      assert x in kept <==> x in multiset(kept);
    }
    forall x ensures x in all <==> exists i :: 0 <= i < |locs| && x == NearbyLocation(locs[i], dists[i]) {
      if x in all {
        var i :| 0 <= i < |all| && all[i] == x;
      }
    }
    if DistinctIds(locs) {
      forall i | 0 <= i < |locs| && dists[i] <= NearbyDistance as real
        ensures multiset(r)[NearbyLocation(locs[i], dists[i])] == 1
      {
        WithDistancesOnce(locs, dists, i);
      }
    }
  }

  /** With distinct ids, each catalogue location appears once among its
      pairings with distances. */
  lemma {:induction false} WithDistancesOnce(locs: seq<Location>, dists: seq<real>, i: nat)
    requires |dists| == |locs| && i < |locs|
    requires DistinctIds(locs)
    ensures multiset(WithDistances(locs, dists))[NearbyLocation(locs[i], dists[i])] == 1
    decreases |locs|
  {
    var x := NearbyLocation(locs[i], dists[i]);
    var rest := WithDistances(locs[1..], dists[1..]);
    assert WithDistances(locs, dists) == [NearbyLocation(locs[0], dists[0])] + rest;
    if i == 0 {
      forall k | 0 <= k < |rest| ensures rest[k] != x {
        assert rest[k].location == locs[k + 1];
      }
      assert x !in rest;
    } else {
      assert locs[0].id != locs[i].id;
      assert DistinctIds(locs[1..]);
      assert locs[1..][i - 1] == locs[i] && dists[1..][i - 1] == dists[i];
      WithDistancesOnce(locs[1..], dists[1..], i - 1);
    }
  }
}
