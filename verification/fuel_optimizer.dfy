/**
 * The greedy fuel-stop selector. `optimize_fuel` walks the route point by
 * point, adding up segment distances; once the distance since the last
 * refill reaches BUFFER miles it asks `find_cheapest_station` for the
 * cheapest station within SEARCH_RADIUS miles of the current point, and when
 * one is found records a full-tank refill there and starts counting again.
 *
 * The geodesic distance (geopy's `geodesic(...).miles`) is the parameter
 * `dist`, any function to non-negative miles. Coordinates, distances and
 * prices are real numbers; a coordinate that is `None` or NaN is `None`.
 */
module FuelOptimizer {
  import opened Wrappers

  /** Maximum miles per tank. */
  const MAX_RANGE: real := 500.0
  /** Start looking for fuel once this many miles are driven since the last refill. */
  const BUFFER: real := 450.0
  /** Miles per gallon. */
  const MPG: real := 10.0
  /** Stations are looked for within this many miles of the route point. */
  const SEARCH_RADIUS: real := 50.0

  type Miles = r: real | 0.0 <= r

  /** A `(lat, lon)` pair. */
  datatype GeoPoint = GeoPoint(lat: real, lon: real)

  /** A `(name, address, lat, lon, price)` station tuple. */
  datatype Station = Station(name: string, address: string,
                             lat: Option<real>, lon: Option<real>, price: real)

  /** A `(name, address, lat, lon, price, refill_cost)` tuple of the result. */
  datatype Stop = Stop(name: string, address: string,
                       lat: Option<real>, lon: Option<real>, price: real, refillCost: real)

  // ---------------------------------------------------------------------
  // find_cheapest_station
  // ---------------------------------------------------------------------

  /** The list comprehension `[x for x in s if p(x)]`. */
  function Filter<T>(s: seq<T>, p: T -> bool): seq<T>
  {
    if s == [] then []
    else (if p(s[0]) then [s[0]] else []) + Filter(s[1..], p)
  }

  /** The comprehension keeps exactly the elements satisfying `p`. */
  lemma {:induction false} FilterMembers<T(!new)>(s: seq<T>, p: T -> bool)
    ensures |Filter(s, p)| <= |s|
    ensures forall x :: x in Filter(s, p) <==> x in s && p(x)
  {
    if s != [] {
      FilterMembers(s[1..], p);
      assert s == [s[0]] + s[1..];
    }
  }

  /** Filtering by `q` after `p` is filtering by `q` alone, when `q` implies `p`. */
  lemma {:induction false} FilterImplied<T(!new)>(s: seq<T>, p: T -> bool, q: T -> bool)
    requires forall x :: q(x) ==> p(x)
    ensures Filter(Filter(s, p), q) == Filter(s, q)
  {
    if s != [] {
      FilterImplied(s[1..], p, q);
      var f := Filter(s, p);
      if p(s[0]) {
        assert f == [s[0]] + Filter(s[1..], p);
        assert f[0] == s[0] && f[1..] == Filter(s[1..], p);
      } else {
        assert f == Filter(s[1..], p);
        assert !q(s[0]);
      }
    }
  }

  lemma FilterHead<T(!new)>(s: seq<T>, p: T -> bool)
    requires s != []
    ensures Filter(s, p) == (if p(s[0]) then [s[0]] else []) + Filter(s[1..], p)
  {
  }

  lemma PrefixHead<T>(s: seq<T>, k: nat)
    requires k < |s| - 1
    ensures s[..k + 1] != [] && s[..k + 1][0] == s[0] && s[..k + 1][1..] == s[1..][..k]
    ensures s[k + 1] == s[1..][k]
  {
  }

  lemma ConcatPrefix<T>(a: seq<T>, b: seq<T>, n: nat)
    requires n <= |b|
    ensures (a + b)[..|a| + n] == a + b[..n]
    ensures forall m :: 0 <= m < |b| ==> (a + b)[|a| + m] == b[m]
  {
  }

  /** Element `j` of a filtered list is an element `k` of the list, and the
      elements kept before it are exactly those kept from before `k`. */
  lemma {:induction false} FilterIndex<T(!new)>(s: seq<T>, p: T -> bool, j: nat)
    requires j < |Filter(s, p)|
    ensures exists k :: 0 <= k < |s| && s[k] == Filter(s, p)[j] && Filter(s[..k], p) == Filter(s, p)[..j]
  {
    var t := s[1..];
    var head := if p(s[0]) then [s[0]] else [];
    FilterHead(s, p);
    if p(s[0]) && j == 0 {
      assert s[..0] == [];
    } else {
      var j' := j - |head|;
      FilterIndex(t, p, j');
      var k :| 0 <= k < |t| && t[k] == Filter(t, p)[j'] && Filter(t[..k], p) == Filter(t, p)[..j'];
      PrefixHead(s, k);
      FilterHead(s[..k + 1], p);
      ConcatPrefix(head, Filter(t, p), j');
    }
  }

  /** The coordinates are usable: neither is `None` nor NaN. */
  predicate HasCoords(s: Station)
  {
    s.lat.Some? && s.lon.Some?
  }

  function Location(s: Station): GeoPoint
    requires HasCoords(s)
  {
    GeoPoint(s.lat.value, s.lon.value)
  }

  /** A station with usable coordinates within `radius` miles of `point`. */
  predicate Near(point: GeoPoint, s: Station, radius: real, dist: (GeoPoint, GeoPoint) -> Miles)
  {
    HasCoords(s) && dist(point, Location(s)) <= radius
  }

  /** The distance filter of `find_cheapest_station`; the coordinate check is
      there only to make `Location` defined, and holds for every station it
      is applied to. */
  function NearTo(point: GeoPoint, radius: real, dist: (GeoPoint, GeoPoint) -> Miles): Station -> bool
  {
    s => Near(point, s, radius, dist)
  }

  /** `j` is the first station of `c` at the lowest price. */
  predicate FirstCheapest(c: seq<Station>, j: int)
  {
    && 0 <= j < |c|
    && (forall k :: 0 <= k < |c| ==> c[j].price <= c[k].price)
    && (forall k :: 0 <= k < j ==> c[k].price > c[j].price)
  }

  /** `min` over `[best] + rest` with key `price`: scan left to right and
      replace the best so far only by a strictly cheaper station. */
  function MinByPrice(best: Station, rest: seq<Station>): Station
    decreases |rest|
  {
    if rest == [] then best
    else MinByPrice(if rest[0].price < best.price then rest[0] else best, rest[1..])
  }

  /** `min(c, key=lambda s: s[4])`. */
  function Cheapest(c: seq<Station>): Station
    requires c != []
  {
    MinByPrice(c[0], c[1..])
  }

  lemma {:induction false} MinByPriceFirst(c: seq<Station>, i: nat, b: nat)
    requires 0 < i <= |c| && FirstCheapest(c[..i], b)
    ensures exists j :: FirstCheapest(c, j) && MinByPrice(c[b], c[i..]) == c[j]
    decreases |c| - i
  {
    if i == |c| {
      assert c[..i] == c;
    } else {
      var nb := if c[i].price < c[b].price then i else b;
      assert c[..i + 1][..i] == c[..i];
      assert FirstCheapest(c[..i + 1], nb);
      assert c[i..][1..] == c[i + 1..];
      MinByPriceFirst(c, i + 1, nb);
    }
  }

  /** `min` with a key returns the first element whose key is smallest. */
  lemma CheapestFirst(c: seq<Station>)
    requires c != []
    ensures exists j :: FirstCheapest(c, j) && Cheapest(c) == c[j]
  {
    assert FirstCheapest(c[..1], 0);
    MinByPriceFirst(c, 1, 0);
  }

  /** `find_cheapest_station(point, fuel_stops, radius)`. */
  function FindCheapestStation(point: GeoPoint, stations: seq<Station>, radius: real,
                               dist: (GeoPoint, GeoPoint) -> Miles): Option<Station>
  {
    var valid := Filter(stations, HasCoords);
    if valid == [] then None
    else
      var nearby := Filter(valid, NearTo(point, radius, dist));
      if nearby == [] then None else Some(Cheapest(nearby))
  }

  /** No station is returned exactly when no station with usable coordinates
      is within `radius`; a station returned is one of the list, within
      `radius`, and no dearer than any other station within `radius`. */
  lemma FindCheapestSpec(point: GeoPoint, stations: seq<Station>, radius: real,
                         dist: (GeoPoint, GeoPoint) -> Miles)
    ensures var r := FindCheapestStation(point, stations, radius, dist);
      && (r.None? <==> forall j :: 0 <= j < |stations| ==> !Near(point, stations[j], radius, dist))
      && (r.Some? ==> r.value in stations && Near(point, r.value, radius, dist))
      && (r.Some? ==> forall j :: 0 <= j < |stations| && Near(point, stations[j], radius, dist) ==>
                        r.value.price <= stations[j].price)
  {
    var p := NearTo(point, radius, dist);
    var nearby := Filter(Filter(stations, HasCoords), p);
    FilterImplied(stations, HasCoords, p);
    FilterMembers(stations, p);
    forall j | 0 <= j < |stations| && Near(point, stations[j], radius, dist)
      ensures stations[j] in nearby
    {
      assert stations[j] in stations && p(stations[j]);
    }
    if nearby != [] {
      CheapestFirst(nearby);
      var j :| FirstCheapest(nearby, j) && Cheapest(nearby) == nearby[j];
      assert nearby[j] in nearby;
    }
  }

  /** The station returned is the first of the eligible ones at the lowest price. */
  lemma FindCheapestFirst(point: GeoPoint, stations: seq<Station>, radius: real,
                          dist: (GeoPoint, GeoPoint) -> Miles)
    requires FindCheapestStation(point, stations, radius, dist).Some?
    ensures var s := FindCheapestStation(point, stations, radius, dist).value;
      exists k :: 0 <= k < |stations| && stations[k] == s &&
        forall i :: 0 <= i < k && Near(point, stations[i], radius, dist) ==> stations[i].price > s.price
  {
    var p := NearTo(point, radius, dist);
    var nearby := Filter(Filter(stations, HasCoords), p);
    FilterImplied(stations, HasCoords, p);
    CheapestFirst(nearby);
    var j :| FirstCheapest(nearby, j) && Cheapest(nearby) == nearby[j];
    FilterIndex(stations, p, j);
    var k :| 0 <= k < |stations| && stations[k] == nearby[j] && Filter(stations[..k], p) == nearby[..j];
    FilterMembers(stations[..k], p);
    forall i | 0 <= i < k && Near(point, stations[i], radius, dist)
      ensures stations[i].price > nearby[j].price
    {
      assert stations[..k][i] == stations[i];
      assert stations[i] in stations[..k] && p(stations[i]);
      assert stations[i] in Filter(stations[..k], p);
      var m :| 0 <= m < j && nearby[..j][m] == stations[i];
    }
  }

  // ---------------------------------------------------------------------
  // optimize_fuel
  // ---------------------------------------------------------------------

  /** The stop recorded for `s`: the station's fields and the cost of a full
      tank, `(MAX_RANGE / MPG) * price`. */
  function Refill(s: Station): (t: Stop)
    ensures t.name == s.name && t.address == s.address
    ensures t.lat == s.lat && t.lon == s.lon && t.price == s.price
    ensures t.refillCost == 50.0 * s.price
  {
    Stop(s.name, s.address, s.lat, s.lon, s.price, (MAX_RANGE / MPG) * s.price)
  }

  /** A Python value held in the tuples. */
  datatype PyValue = PyStr(str: string) | PyNum(num: real) | PyNone

  function PyOpt(x: Option<real>): PyValue
  {
    if x.Some? then PyNum(x.value) else PyNone
  }

  function StationTuple(s: Station): seq<PyValue>
  {
    [PyStr(s.name), PyStr(s.address), PyOpt(s.lat), PyOpt(s.lon), PyNum(s.price)]
  }

  function StopTuple(t: Stop): seq<PyValue>
  {
    [PyStr(t.name), PyStr(t.address), PyOpt(t.lat), PyOpt(t.lon), PyNum(t.price), PyNum(t.refillCost)]
  }

  /** `station not in selected_stops`: compares the five-field station with
      the six-field stops, and tuples of different lengths are never equal,
      so the test always holds. */
  function NotSelected(station: Station, selected: seq<Stop>): (b: bool)
    ensures b
  {
    forall k :: 0 <= k < |selected| ==> StopTuple(selected[k]) != StationTuple(station)
  }

  /** Miles driven from route point `a` to route point `b`. */
  function Driven(route: seq<GeoPoint>, dist: (GeoPoint, GeoPoint) -> Miles, a: nat, b: nat): real
    requires a <= b < |route|
    decreases b - a
  {
    if a == b then 0.0 else Driven(route, dist, a, b - 1) + dist(route[b - 1], route[b])
  }

  /** The length of the whole route. */
  function PathLength(route: seq<GeoPoint>, dist: (GeoPoint, GeoPoint) -> Miles): real
    requires |route| >= 1
  {
    Driven(route, dist, 0, |route| - 1)
  }

  lemma {:induction false} DrivenSplit(route: seq<GeoPoint>, dist: (GeoPoint, GeoPoint) -> Miles,
                                       a: nat, b: nat, c: nat)
    requires a <= b <= c < |route|
    ensures Driven(route, dist, a, c) == Driven(route, dist, a, b) + Driven(route, dist, b, c)
    decreases c - b
  {
    if b < c {
      DrivenSplit(route, dist, a, b, c - 1);
    }
  }

  lemma {:induction false} DrivenNonNegative(route: seq<GeoPoint>, dist: (GeoPoint, GeoPoint) -> Miles,
                                             a: nat, b: nat)
    requires a <= b < |route|
    ensures Driven(route, dist, a, b) >= 0.0
    decreases b - a
  {
    if a < b {
      DrivenNonNegative(route, dist, a, b - 1);
    }
  }

  /** With the tank last filled at point `start`, reaching point `i` makes
      the optimizer stop there: BUFFER miles are driven and a station is near. */
  predicate Fires(route: seq<GeoPoint>, stations: seq<Station>, dist: (GeoPoint, GeoPoint) -> Miles,
                  start: nat, i: nat)
    requires start <= i < |route|
  {
    Driven(route, dist, start, i) >= BUFFER
    && FindCheapestStation(route[i], stations, SEARCH_RADIUS, dist).Some?
  }

  function RefillAt(route: seq<GeoPoint>, stations: seq<Station>, dist: (GeoPoint, GeoPoint) -> Miles,
                    i: nat): Stop
    requires i < |route| && FindCheapestStation(route[i], stations, SEARCH_RADIUS, dist).Some?
  {
    Refill(FindCheapestStation(route[i], stations, SEARCH_RADIUS, dist).value)
  }

  /** The greedy plan for points `start + 1 .. bound - 1`, the tank last filled
      at `start`: `stops` are the refills made, at route points `at`. The
      first refill is at the first point where the optimizer fires, and the
      rest of the plan starts again from there; no refill if it never fires. */
  ghost predicate Greedy(route: seq<GeoPoint>, stations: seq<Station>, dist: (GeoPoint, GeoPoint) -> Miles,
                         start: nat, bound: nat, at: seq<nat>, stops: seq<Stop>)
    requires start < bound <= |route|
    decreases |at|
  {
    if at == [] then
      && stops == []
      && forall i :: start < i < bound ==> !Fires(route, stations, dist, start, i)
    else
      && stops != []
      && start < at[0] < bound
      && Fires(route, stations, dist, start, at[0])
      && (forall i :: start < i < at[0] ==> !Fires(route, stations, dist, start, i))
      && stops[0] == RefillAt(route, stations, dist, at[0])
      && Greedy(route, stations, dist, at[0], bound, at[1..], stops[1..])
  }

  /** The point of the last refill, or `start` when there was none. */
  function LastRefill(start: nat, at: seq<nat>): nat
  {
    if at == [] then start else at[|at| - 1]
  }

  lemma LastRefillTail(start: nat, at: seq<nat>)
    requires at != []
    ensures LastRefill(at[0], at[1..]) == LastRefill(start, at)
  {
    if |at| > 1 {
      assert at[1..][|at| - 2] == at[|at| - 1];
    }
  }

  /** A point where the optimizer does not fire extends the plan by nothing. */
  lemma {:induction false} GreedyQuiet(route: seq<GeoPoint>, stations: seq<Station>,
                                       dist: (GeoPoint, GeoPoint) -> Miles,
                                       start: nat, bound: nat, at: seq<nat>, stops: seq<Stop>)
    requires start < bound < |route|
    requires Greedy(route, stations, dist, start, bound, at, stops)
    requires LastRefill(start, at) < bound
    requires !Fires(route, stations, dist, LastRefill(start, at), bound)
    ensures Greedy(route, stations, dist, start, bound + 1, at, stops)
    decreases |at|
  {
    if at != [] {
      LastRefillTail(start, at);
      GreedyQuiet(route, stations, dist, at[0], bound, at[1..], stops[1..]);
    }
  }

  lemma SnocTail<T>(s: seq<T>, x: T)
    ensures (s + [x])[0] == if s == [] then x else s[0]
    ensures (s + [x])[1..] == if s == [] then [] else s[1..] + [x]
  {
  }

  /** A point where the optimizer fires extends the plan by one refill there. */
  lemma {:induction false} GreedyFire(route: seq<GeoPoint>, stations: seq<Station>,
                                      dist: (GeoPoint, GeoPoint) -> Miles,
                                      start: nat, bound: nat, at: seq<nat>, stops: seq<Stop>)
    requires start < bound < |route|
    requires Greedy(route, stations, dist, start, bound, at, stops)
    requires LastRefill(start, at) < bound
    requires Fires(route, stations, dist, LastRefill(start, at), bound)
    ensures Greedy(route, stations, dist, start, bound + 1, at + [bound],
                   stops + [RefillAt(route, stations, dist, bound)])
    decreases |at|
  {
    var stop := RefillAt(route, stations, dist, bound);
    SnocTail(at, bound);
    SnocTail(stops, stop);
    if at == [] {
      assert Greedy(route, stations, dist, bound, bound + 1, [], []);
    } else {
      LastRefillTail(start, at);
      GreedyFire(route, stations, dist, at[0], bound, at[1..], stops[1..]);
    }
  }

  /** The state of `optimize_fuel` before point `i`: `acc` miles driven
      since the last refill, which was at the last of `at`, and the refills
      made so far are the greedy plan up to point `i - 1`. */
  ghost predicate Scanned(route: seq<GeoPoint>, stations: seq<Station>, dist: (GeoPoint, GeoPoint) -> Miles,
                          i: nat, at: seq<nat>, stops: seq<Stop>, acc: real)
    requires 1 <= i <= |route|
  {
    && LastRefill(0, at) < i
    && acc == Driven(route, dist, LastRefill(0, at), i - 1)
    && Greedy(route, stations, dist, 0, i, at, stops)
  }

  /** Driving on to point `i` without refilling. */
  lemma ScannedQuiet(route: seq<GeoPoint>, stations: seq<Station>, dist: (GeoPoint, GeoPoint) -> Miles,
                     i: nat, at: seq<nat>, stops: seq<Stop>, acc: real)
    requires 1 <= i < |route|
    requires Scanned(route, stations, dist, i, at, stops, acc)
    requires acc + dist(route[i - 1], route[i]) < BUFFER
             || FindCheapestStation(route[i], stations, SEARCH_RADIUS, dist).None?
    ensures Scanned(route, stations, dist, i + 1, at, stops, acc + dist(route[i - 1], route[i]))
  {
    GreedyQuiet(route, stations, dist, 0, i, at, stops);
  }

  /** Refilling at point `i`. */
  lemma ScannedFire(route: seq<GeoPoint>, stations: seq<Station>, dist: (GeoPoint, GeoPoint) -> Miles,
                    i: nat, at: seq<nat>, stops: seq<Stop>, acc: real)
    requires 1 <= i < |route|
    requires Scanned(route, stations, dist, i, at, stops, acc)
    requires acc + dist(route[i - 1], route[i]) >= BUFFER
    requires FindCheapestStation(route[i], stations, SEARCH_RADIUS, dist).Some?
    ensures Scanned(route, stations, dist, i + 1, at + [i], stops + [RefillAt(route, stations, dist, i)], 0.0)
  {
    GreedyFire(route, stations, dist, 0, i, at, stops);
  }

  /** `optimize_fuel(route_coords, fuel_stops)`; the route must have a first
      point (`route_coords[0]`). */
  method OptimizeFuel(route: seq<GeoPoint>, stations: seq<Station>, dist: (GeoPoint, GeoPoint) -> Miles)
    returns (selected: seq<Stop>)
    requires |route| >= 1
    ensures exists at :: Greedy(route, stations, dist, 0, |route|, at, selected)
    ensures |selected| <= |route| - 1
    ensures |selected| as real * BUFFER <= PathLength(route, dist)
    ensures PathLength(route, dist) < BUFFER ==> selected == []
    ensures forall k :: 0 <= k < |selected| ==>
              exists j :: 0 <= j < |stations| && HasCoords(stations[j]) && selected[k] == Refill(stations[j])
  {
    selected := [];
    var distanceAcc: real := 0.0;
    var lastPoint := route[0];
    ghost var at: seq<nat> := [];
    for i := 1 to |route|
      invariant lastPoint == route[i - 1]
      invariant Scanned(route, stations, dist, i, at, selected, distanceAcc)
    {
      var point := route[i];
      ghost var acc := distanceAcc;
      distanceAcc := distanceAcc + dist(lastPoint, point);
      if distanceAcc >= BUFFER {
        var station := FindCheapestStation(point, stations, SEARCH_RADIUS, dist);
        if station.Some? && NotSelected(station.value, selected) {
          ScannedFire(route, stations, dist, i, at, selected, acc);
          selected := selected + [Refill(station.value)];
          distanceAcc := 0.0;
          at := at + [i];
        } else {
          ScannedQuiet(route, stations, dist, i, at, selected, acc);
        }
      } else {
        ScannedQuiet(route, stations, dist, i, at, selected, acc);
      }
      lastPoint := point;
    }
    GreedyPlan(route, stations, dist, at, selected);
  }

  /** The shape of a plan: one refill per refill point, the points strictly
      increasing inside the range, and each refill the one found there. */
  lemma {:induction false} GreedyStops(route: seq<GeoPoint>, stations: seq<Station>,
                                       dist: (GeoPoint, GeoPoint) -> Miles,
                                       start: nat, bound: nat, at: seq<nat>, stops: seq<Stop>)
    requires start < bound <= |route|
    requires Greedy(route, stations, dist, start, bound, at, stops)
    ensures |stops| == |at| <= bound - start - 1
    ensures forall k :: 0 <= k < |at| ==> start < at[k] < bound
    ensures forall k, m :: 0 <= k < m < |at| ==> at[k] < at[m]
    ensures forall k :: 0 <= k < |at| ==>
              FindCheapestStation(route[at[k]], stations, SEARCH_RADIUS, dist).Some? &&
              stops[k] == RefillAt(route, stations, dist, at[k])
    decreases |at|
  {
    if at != [] {
      GreedyStops(route, stations, dist, at[0], bound, at[1..], stops[1..]);
      forall k | 0 < k < |at| ensures at[0] < at[k] {
        assert at[k] == at[1..][k - 1];
      }
    }
  }

  /** Every refill is a full tank at a station of the list with usable coordinates. */
  lemma GreedyFromStations(route: seq<GeoPoint>, stations: seq<Station>,
                           dist: (GeoPoint, GeoPoint) -> Miles,
                           start: nat, bound: nat, at: seq<nat>, stops: seq<Stop>)
    requires start < bound <= |route|
    requires Greedy(route, stations, dist, start, bound, at, stops)
    ensures forall k :: 0 <= k < |stops| ==>
              exists j :: 0 <= j < |stations| && HasCoords(stations[j]) && stops[k] == Refill(stations[j])
  {
    GreedyStops(route, stations, dist, start, bound, at, stops);
    forall k | 0 <= k < |stops|
      ensures exists j :: 0 <= j < |stations| && HasCoords(stations[j]) && stops[k] == Refill(stations[j])
    {
      FindCheapestSpec(route[at[k]], stations, SEARCH_RADIUS, dist);
      var s := FindCheapestStation(route[at[k]], stations, SEARCH_RADIUS, dist).value;
      var j :| 0 <= j < |stations| && stations[j] == s;
    }
  }

  /** Refills are at least BUFFER miles apart: the route is at least BUFFER
      miles long for every refill made. In particular a route shorter than
      BUFFER gets no refill. */
  lemma {:induction false} GreedySpacing(route: seq<GeoPoint>, stations: seq<Station>,
                                         dist: (GeoPoint, GeoPoint) -> Miles,
                                         start: nat, bound: nat, at: seq<nat>, stops: seq<Stop>)
    requires start < bound <= |route|
    requires Greedy(route, stations, dist, start, bound, at, stops)
    ensures |stops| as real * BUFFER <= Driven(route, dist, start, bound - 1)
    decreases |at|
  {
    if at == [] {
      DrivenNonNegative(route, dist, start, bound - 1);
    } else {
      GreedySpacing(route, stations, dist, at[0], bound, at[1..], stops[1..]);
      DrivenSplit(route, dist, start, at[0], bound - 1);
    }
  }

  /** A plan refills at the first point where the optimizer fires, and
      makes no refill exactly when it never fires. */
  lemma GreedyFirst(route: seq<GeoPoint>, stations: seq<Station>,
                    dist: (GeoPoint, GeoPoint) -> Miles,
                    start: nat, bound: nat, at: seq<nat>, stops: seq<Stop>)
    requires start < bound <= |route|
    requires Greedy(route, stations, dist, start, bound, at, stops)
    ensures at == [] <==> forall i :: start < i < bound ==> !Fires(route, stations, dist, start, i)
    ensures at != [] ==> forall i :: start < i < bound && Fires(route, stations, dist, start, i) ==> at[0] <= i
  {
  }

  /** What a whole-route plan promises: at most one refill per point after
      the first, refills at least BUFFER miles apart, and each one a full tank
      at a listed station with usable coordinates. */
  lemma GreedyPlan(route: seq<GeoPoint>, stations: seq<Station>,
                   dist: (GeoPoint, GeoPoint) -> Miles, at: seq<nat>, stops: seq<Stop>)
    requires 1 <= |route|
    requires Greedy(route, stations, dist, 0, |route|, at, stops)
    ensures |stops| <= |route| - 1
    ensures |stops| as real * BUFFER <= PathLength(route, dist)
    ensures PathLength(route, dist) < BUFFER ==> stops == []
    ensures forall k :: 0 <= k < |stops| ==>
              exists j :: 0 <= j < |stations| && HasCoords(stations[j]) && stops[k] == Refill(stations[j])
  {
    GreedyStops(route, stations, dist, 0, |route|, at, stops);
    GreedySpacing(route, stations, dist, 0, |route|, at, stops);
    GreedyFromStations(route, stations, dist, 0, |route|, at, stops);
  }

  /** The plan is determined by the route, the stations and the distance:
      there is only one. */
  lemma {:induction false} GreedyUnique(route: seq<GeoPoint>, stations: seq<Station>,
                                        dist: (GeoPoint, GeoPoint) -> Miles, start: nat, bound: nat,
                                        at1: seq<nat>, stops1: seq<Stop>, at2: seq<nat>, stops2: seq<Stop>)
    requires start < bound <= |route|
    requires Greedy(route, stations, dist, start, bound, at1, stops1)
    requires Greedy(route, stations, dist, start, bound, at2, stops2)
    ensures at1 == at2 && stops1 == stops2
    decreases |at1|
  {
    GreedyFirst(route, stations, dist, start, bound, at1, stops1);
    GreedyFirst(route, stations, dist, start, bound, at2, stops2);
    if at1 != [] && at2 != [] {
      assert at1[0] == at2[0];
      GreedyUnique(route, stations, dist, at1[0], bound, at1[1..], stops1[1..], at2[1..], stops2[1..]);
      assert at1 == [at1[0]] + at1[1..] && at2 == [at2[0]] + at2[1..];
      assert stops1 == [stops1[0]] + stops1[1..] && stops2 == [stops2[0]] + stops2[1..];
    }
  }

  /** `sum(stop[5] for stop in fuel_stops_selected)`: the total refill cost. */
  function TotalCost(stops: seq<Stop>): real
  {
    if stops == [] then 0.0 else stops[0].refillCost + TotalCost(stops[1..])
  }

  /** The total price per gallon of the stations refilled at. */
  function TotalPrice(stops: seq<Stop>): real
  {
    if stops == [] then 0.0 else stops[0].price + TotalPrice(stops[1..])
  }

  /** Every refill is a full 50-gallon tank, so the total cost is 50 times
      the sum of the prices per gallon. */
  lemma {:induction false} GreedyTotalCost(route: seq<GeoPoint>, stations: seq<Station>,
                                           dist: (GeoPoint, GeoPoint) -> Miles,
                                           start: nat, bound: nat, at: seq<nat>, stops: seq<Stop>)
    requires start < bound <= |route|
    requires Greedy(route, stations, dist, start, bound, at, stops)
    ensures TotalCost(stops) == 50.0 * TotalPrice(stops)
    decreases |at|
  {
    if at != [] {
      GreedyTotalCost(route, stations, dist, at[0], bound, at[1..], stops[1..]);
    }
  }

  // ---------------------------------------------------------------------
  // The duplicate guard lets a station be chosen twice
  // ---------------------------------------------------------------------

  /** 100 miles per degree of latitude, longitude ignored. */
  function FlatDist(p: GeoPoint, q: GeoPoint): Miles
  {
    if p.lat >= q.lat then 100.0 * (p.lat - q.lat) else 100.0 * (q.lat - p.lat)
  }

  const Home: GeoPoint := GeoPoint(30.0, -97.0)
  const Away: GeoPoint := GeoPoint(34.5, -97.0)

  /** There and back twice: every leg is 450 miles. */
  const RoundTrip: seq<GeoPoint> := [Home, Away, Home, Away]

  /** The only station, at the far end. */
  const Depot: Station := Station("D", "A", Some(34.5), Some(-97.0), 3.0)

  lemma DepotAway()
    ensures FindCheapestStation(Away, [Depot], SEARCH_RADIUS, FlatDist) == Some(Depot)
  {
    var p := NearTo(Away, SEARCH_RADIUS, FlatDist);
    assert Filter([Depot], HasCoords) == [Depot];
    assert Filter([Depot], p) == [Depot];
  }

  lemma DepotHome()
    ensures FindCheapestStation(Home, [Depot], SEARCH_RADIUS, FlatDist) == None
  {
    var p := NearTo(Home, SEARCH_RADIUS, FlatDist);
    assert Filter([Depot], HasCoords) == [Depot];
    assert Filter([Depot], p) == [];
  }

  lemma RoundTripLegs()
    ensures Driven(RoundTrip, FlatDist, 0, 1) == 450.0
    ensures Driven(RoundTrip, FlatDist, 1, 2) == 450.0
    ensures Driven(RoundTrip, FlatDist, 1, 3) == 900.0
  {
  }

  /** The plan refills at the depot at point 1, finds nothing within reach at
      point 2 and keeps counting, and refills at the same depot at point 3. */
  lemma RoundTripPlan()
    ensures Greedy(RoundTrip, [Depot], FlatDist, 0, 4, [1, 3], [Refill(Depot), Refill(Depot)])
  {
    DepotAway();
    DepotHome();
    RoundTripLegs();
    assert Greedy(RoundTrip, [Depot], FlatDist, 3, 4, [], []);
    assert Greedy(RoundTrip, [Depot], FlatDist, 1, 4, [3], [Refill(Depot)]);
  }

  /** Any plan for the round trip, and so the result of `OptimizeFuel`,
      holds the one station twice. */
  lemma RoundTripRefillsTwice(at: seq<nat>, stops: seq<Stop>)
    requires Greedy(RoundTrip, [Depot], FlatDist, 0, 4, at, stops)
    ensures stops == [Refill(Depot), Refill(Depot)]
  {
    RoundTripPlan();
    GreedyUnique(RoundTrip, [Depot], FlatDist, 0, 4, at, stops, [1, 3], [Refill(Depot), Refill(Depot)]);
  }
}
