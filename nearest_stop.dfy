/** The nearest stop of a city to a query point. */
module NearestStop {
  import opened Outcomes
  import opened Feed

  /** The great-circle distance from a query point to a stop's coordinates, taken as given. */
  type Distance = (real, real, real, real) -> real

  /** What find_nearest_stop returns: the stop's id and name. */
  datatype StopLabel = StopLabel(stopId: string, stopName: string)

  /** The per-request distance column: one distance per stop, in table order. */
  function Distances(stops: seq<Stop>, lat: real, lon: real, distance: Distance): (ds: seq<real>)
    ensures |ds| == |stops|
  {
    seq(|stops|, i requires 0 <= i < |stops| => distance(lat, lon, stops[i].lat, stops[i].lon))
  }

  /** `k` is where idxmin stops: a smallest distance, and the first one in table order. */
  predicate IsFirstMinimum(ds: seq<real>, k: int)
  {
    && 0 <= k < |ds|
    && (forall j :: 0 <= j < |ds| ==> ds[k] <= ds[j])
    && (forall j :: 0 <= j < k ==> ds[k] < ds[j])
  }

  /** find_nearest_stop: distances into a local sequence, then the first index of the minimum. */
  method FindNearestStop(store: FeedStore, city: string, lat: real, lon: real, distance: Distance)
    returns (r: Result<StopLabel>)
    ensures city !in store ==> r == Err(UnknownCity(city))
    ensures city in store && store[city].stops == [] ==> r == Err(NoStops(city))
    ensures city in store && store[city].stops != [] ==>
      r.Ok? && (exists k :: IsFirstMinimum(Distances(store[city].stops, lat, lon, distance), k) &&
                  r.value == StopLabel(store[city].stops[k].stopId, store[city].stops[k].stopName))
  {
    if city !in store {
      return Err(UnknownCity(city));
    }
    var stops := store[city].stops;
    if |stops| == 0 {
      return Err(NoStops(city));
    }
    var ds := Distances(stops, lat, lon, distance);
    var best := 0;
    var i := 1;
    while i < |ds|
      invariant 0 <= best < i <= |ds|
      invariant forall j :: 0 <= j < i ==> ds[best] <= ds[j]
      invariant forall j :: 0 <= j < best ==> ds[best] < ds[j]
    {
      if ds[i] < ds[best] {
        best := i;
      }
      i := i + 1;
    }
    r := Ok(StopLabel(stops[best].stopId, stops[best].stopName));
    assert IsFirstMinimum(ds, best);
  }

  /** At most one index is the first minimum, so the stop chosen is determined by the table. */
  lemma FirstMinimumUnique(ds: seq<real>, k1: int, k2: int)
    requires IsFirstMinimum(ds, k1) && IsFirstMinimum(ds, k2)
    ensures k1 == k2
  {
    assert ds[k1] == ds[k2];
    if k1 < k2 {
      assert false;
    } else if k2 < k1 {
      assert false;
    }
  }
}
