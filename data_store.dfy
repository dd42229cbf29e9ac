/**
 * The in-memory data store behind the points-of-interest handlers: a list of
 * cities, each owning an ordered list of points of interest. The C# code
 * reaches it through the static `CitiesDataStore.Current`; here it is an
 * explicit object whose `cities` field the handlers update.
 */
module DataStore {
  import opened Wrappers
  import opened Sequences

  const MIN_INT32: int := -0x8000_0000
  const MAX_INT32: int := 0x7fff_ffff

  /** C#'s `int`, the type of every city and point-of-interest id. */
  type int32 = x: int | MIN_INT32 <= x <= MAX_INT32

  /** A point of interest (`PointOfInterestDto`). */
  datatype Point = Point(id: int32, name: string, description: string)

  /** A city (`CityDto`); its list of points may be null, which is `None` here. */
  datatype City = City(id: int32, name: string, description: string, points: Option<seq<Point>>)

  /** The store itself: `CitiesDataStore` with its `Cities` list. */
  class CitiesDataStore {
    var cities: seq<City>

    constructor (initial: seq<City>)
      ensures cities == initial
    {
      cities := initial;
    }
  }

  /** The predicate `x => x.Id == cityId` the handlers pass to `FirstOrDefault`. */
  function HasCityId(cityId: int32): City -> bool
  {
    (c: City) => c.id == cityId
  }

  /** The predicate `x => x.Id == pointId` the handlers pass to `FirstOrDefault`. */
  function HasPointId(pointId: int32): Point -> bool
  {
    (p: Point) => p.id == pointId
  }

  /** `Cities.FirstOrDefault(x => x.Id == cityId)`, as a position. */
  function FindCity(cities: seq<City>, cityId: int32): (r: Option<nat>)
    ensures r.Some? ==> IsFirstMatch(cities, HasCityId(cityId), r.value)
    ensures r.None? <==> forall i :: 0 <= i < |cities| ==> cities[i].id != cityId
  {
    FirstIndex(cities, HasCityId(cityId))
  }

  /** `PointsOfInterest.FirstOrDefault(x => x.Id == pointId)`, as a position. */
  function FindPoint(points: seq<Point>, pointId: int32): (r: Option<nat>)
    ensures r.Some? ==> IsFirstMatch(points, HasPointId(pointId), r.value)
    ensures r.None? <==> forall k :: 0 <= k < |points| ==> points[k].id != pointId
  {
    FirstIndex(points, HasPointId(pointId))
  }

  /** A city's points, reading a null list as empty. */
  function PointsOf(city: City): seq<Point>
  {
    city.points.GetOr([])
  }

  /**
   * The first city with id `cityId`, if there is one, has a non-null list of
   * points. The handlers other than the list handler dereference that list
   * without checking it.
   */
  predicate FoundCityHasList(cities: seq<City>, cityId: int32)
  {
    match FindCity(cities, cityId)
    case None => true
    case Some(i) => cities[i].points.Some?
  }

  /** No city has a null list of points; `SelectMany` over the cities needs this. */
  predicate AllListsPresent(cities: seq<City>)
  {
    forall i :: 0 <= i < |cities| ==> cities[i].points.Some?
  }

  /** The position of a stored point: its city's index and its index in that city's list. */
  datatype Loc = Loc(city: nat, point: nat)

  predicate ValidLoc(cities: seq<City>, loc: Loc)
  {
    loc.city < |cities| && cities[loc.city].points.Some? && loc.point < |cities[loc.city].points.value|
  }

  function PointAt(cities: seq<City>, loc: Loc): Point
    requires ValidLoc(cities, loc)
  {
    cities[loc.city].points.value[loc.point]
  }

  /**
   * The two lookups every handler for a single point starts with: the first
   * city with id `cityId`, then the first of its points with id `pointId`.
   * None is the handler's NotFound.
   */
  function Locate(cities: seq<City>, cityId: int32, pointId: int32): (loc: Option<Loc>)
    requires FoundCityHasList(cities, cityId)
    ensures loc.Some? ==>
      && ValidLoc(cities, loc.value)
      && IsFirstMatch(cities, HasCityId(cityId), loc.value.city)
      && IsFirstMatch(PointsOf(cities[loc.value.city]), HasPointId(pointId), loc.value.point)
    ensures loc.None? ==>
      forall i: nat, k ::
        IsFirstMatch(cities, HasCityId(cityId), i) && 0 <= k < |PointsOf(cities[i])|
        ==> PointsOf(cities[i])[k].id != pointId
  {
    match FindCity(cities, cityId)
    case None => None
    case Some(i) =>
      match FindPoint(cities[i].points.value, pointId)
      case None => None
      case Some(k) => Some(Loc(i, k))
  }

  /** The store after the point at `loc` gets a new name and description (PUT, and the commit of PATCH). */
  function SetPointFields(cities: seq<City>, loc: Loc, name: string, description: string): (r: seq<City>)
    requires ValidLoc(cities, loc)
    ensures |r| == |cities|
    ensures forall i :: 0 <= i < |cities| && i != loc.city ==> r[i] == cities[i]
    ensures ValidLoc(r, loc)
    ensures r[loc.city].id == cities[loc.city].id
    ensures r[loc.city].name == cities[loc.city].name
    ensures r[loc.city].description == cities[loc.city].description
    ensures |PointsOf(r[loc.city])| == |PointsOf(cities[loc.city])|
    ensures forall k ::
      0 <= k < |PointsOf(r[loc.city])| && k != loc.point ==> PointsOf(r[loc.city])[k] == PointsOf(cities[loc.city])[k]
    ensures PointAt(r, loc) == Point(PointAt(cities, loc).id, name, description)
  {
    var city := cities[loc.city];
    var points := city.points.value;
    var point := points[loc.point].(name := name, description := description);
    cities[loc.city := city.(points := Some(points[loc.point := point]))]
  }

  /** The store after the point at `loc` is taken out of its city's list (DELETE). */
  function RemovePoint(cities: seq<City>, loc: Loc): (r: seq<City>)
    requires ValidLoc(cities, loc)
    ensures |r| == |cities|
    ensures forall i :: 0 <= i < |cities| && i != loc.city ==> r[i] == cities[i]
    ensures r[loc.city].id == cities[loc.city].id
    ensures r[loc.city].name == cities[loc.city].name
    ensures r[loc.city].description == cities[loc.city].description
    ensures r[loc.city].points == Some(RemoveAt(cities[loc.city].points.value, loc.point))
  {
    var city := cities[loc.city];
    cities[loc.city := city.(points := Some(RemoveAt(city.points.value, loc.point)))]
  }

  /** `Cities.SelectMany(c => c.PointsOfInterest)`: every stored point, city by city. */
  function AllPoints(cities: seq<City>): seq<Point>
  {
    if |cities| == 0 then [] else PointsOf(cities[0]) + AllPoints(cities[1..])
  }

  /** The ids of a list of points, in order. */
  function Ids(points: seq<Point>): (ids: seq<int>)
    ensures |ids| == |points|
    ensures forall k :: 0 <= k < |points| ==> ids[k] == points[k].id
  {
    seq(|points|, k requires 0 <= k < |points| => points[k].id)
  }

  /** The store's invariant: no two stored points, in the same city or not, share an id. */
  predicate UniqueIds(cities: seq<City>)
  {
    Distinct(Ids(AllPoints(cities)))
  }

  /** Replacing one city changes `SelectMany`'s result only in that city's stretch of it. */
  lemma {:induction false} AllPointsAfterUpdate(cities: seq<City>, i: nat, city: City)
    requires i < |cities|
    ensures AllPoints(cities[i := city]) == AllPoints(cities[..i]) + PointsOf(city) + AllPoints(cities[i + 1..])
  {
    var u := cities[i := city];
    if i > 0 {
      AllPointsAfterUpdate(cities[1..], i - 1, city);
      assert u[1..] == cities[1..][i - 1 := city];
      assert cities[..i][1..] == cities[1..][..i - 1];
      assert cities[1..][i..] == cities[i + 1..];
    } else {
      assert u[1..] == cities[1..];
    }
  }

  lemma IdsOfConcat(a: seq<Point>, b: seq<Point>)
    ensures Ids(a + b) == Ids(a) + Ids(b)
  {
    assert forall k :: 0 <= k < |a + b| ==> Ids(a + b)[k] == (Ids(a) + Ids(b))[k];
  }

  /** PUT and PATCH rename a point but keep its id, so the store's ids, in order, do not change. */
  lemma SetPointFieldsKeepsIds(cities: seq<City>, loc: Loc, name: string, description: string)
    requires ValidLoc(cities, loc)
    ensures Ids(AllPoints(SetPointFields(cities, loc, name, description))) == Ids(AllPoints(cities))
    ensures UniqueIds(cities) ==> UniqueIds(SetPointFields(cities, loc, name, description))
  {
    var r := SetPointFields(cities, loc, name, description);
    var before, after := cities[..loc.city], cities[loc.city + 1..];
    AllPointsAfterUpdate(cities, loc.city, r[loc.city]);
    assert r == cities[loc.city := r[loc.city]];
    AllPointsAfterUpdate(cities, loc.city, cities[loc.city]);
    assert cities == cities[loc.city := cities[loc.city]];
    assert Ids(PointsOf(r[loc.city])) == Ids(PointsOf(cities[loc.city]));
    IdsOfConcat(AllPoints(before), PointsOf(r[loc.city]));
    IdsOfConcat(AllPoints(before) + PointsOf(r[loc.city]), AllPoints(after));
    IdsOfConcat(AllPoints(before), PointsOf(cities[loc.city]));
    IdsOfConcat(AllPoints(before) + PointsOf(cities[loc.city]), AllPoints(after));
  }

  /** DELETE takes exactly one point out of `SelectMany`'s result, leaving the rest in order. */
  lemma RemovePointFromAllPoints(cities: seq<City>, loc: Loc)
    requires ValidLoc(cities, loc)
    ensures exists k: nat :: k < |AllPoints(cities)| && AllPoints(RemovePoint(cities, loc)) == RemoveAt(AllPoints(cities), k)
  {
    var r := RemovePoint(cities, loc);
    var before, after := AllPoints(cities[..loc.city]), AllPoints(cities[loc.city + 1..]);
    var points := PointsOf(cities[loc.city]);
    AllPointsAfterUpdate(cities, loc.city, r[loc.city]);
    assert r == cities[loc.city := r[loc.city]];
    AllPointsAfterUpdate(cities, loc.city, cities[loc.city]);
    assert cities == cities[loc.city := cities[loc.city]];
    var k := |before| + loc.point;
    assert before + RemoveAt(points, loc.point) + after == RemoveAt(before + points + after, k);
  }

  /** DELETE keeps the store's ids unique. */
  lemma RemovePointKeepsUniqueIds(cities: seq<City>, loc: Loc)
    requires ValidLoc(cities, loc) && UniqueIds(cities)
    ensures UniqueIds(RemovePoint(cities, loc))
  {
    RemovePointFromAllPoints(cities, loc);
    var all := AllPoints(cities);
    var k: nat :| k < |all| && AllPoints(RemovePoint(cities, loc)) == RemoveAt(all, k);
    assert Ids(RemoveAt(all, k)) == RemoveAt(Ids(all), k);
    DistinctRemoveAt(Ids(all), k);
  }

  /** Every point of every city is among `SelectMany`'s result. */
  lemma InAllPoints(cities: seq<City>, i: nat, k: nat)
    requires i < |cities| && k < |PointsOf(cities[i])|
    ensures PointsOf(cities[i])[k] in AllPoints(cities)
  {
    AllPointsAt(cities, i, k);
  }

  /** Point `k` of city `i` sits in `SelectMany`'s result right after the points of the cities before `i`. */
  lemma AllPointsAt(cities: seq<City>, i: nat, k: nat)
    requires i < |cities| && k < |PointsOf(cities[i])|
    ensures |AllPoints(cities[..i])| + k < |AllPoints(cities)|
    ensures AllPoints(cities)[|AllPoints(cities[..i])| + k] == PointsOf(cities[i])[k]
  {
    AllPointsAfterUpdate(cities, i, cities[i]);
    assert cities == cities[i := cities[i]];
  }

  /** The points of the cities before `j` begin with the points of the cities before `i`, then those of city `i`. */
  lemma AllPointsPrefix(cities: seq<City>, i: nat, j: nat)
    requires i < j <= |cities|
    ensures AllPoints(cities[..i]) + PointsOf(cities[i]) <= AllPoints(cities[..j])
    ensures |AllPoints(cities[..i])| + |PointsOf(cities[i])| <= |AllPoints(cities[..j])|
  {
    var prefix := cities[..j];
    AllPointsAfterUpdate(prefix, i, prefix[i]);
    assert prefix == prefix[i := prefix[i]];
    assert prefix[..i] == cities[..i];
  }

  /**
   * What the invariant means: two different stored points, whether in the
   * same city or in two cities, never share an id.
   */
  lemma UniqueIdsAcrossCities(cities: seq<City>, i: nat, k: nat, j: nat, l: nat)
    requires UniqueIds(cities)
    requires i < |cities| && k < |PointsOf(cities[i])| && j < |cities| && l < |PointsOf(cities[j])|
    requires i != j || k != l
    ensures PointsOf(cities[i])[k].id != PointsOf(cities[j])[l].id
  {
    AllPointsAt(cities, i, k);
    AllPointsAt(cities, j, l);
    var a := |AllPoints(cities[..i])| + k;
    var b := |AllPoints(cities[..j])| + l;
    if i < j {
      AllPointsPrefix(cities, i, j);
    } else if j < i {
      AllPointsPrefix(cities, j, i);
    }
    assert a != b;
    var ids := Ids(AllPoints(cities));
    assert ids[a] == PointsOf(cities[i])[k].id && ids[b] == PointsOf(cities[j])[l].id;
    if a < b { assert ids[a] != ids[b]; } else { assert ids[b] != ids[a]; }
  }

  /** A store whose ids are unique has, in particular, no id twice within one city. */
  lemma UniqueIdsWithinCity(cities: seq<City>, i: nat)
    requires i < |cities| && UniqueIds(cities)
    ensures Distinct(Ids(PointsOf(cities[i])))
  {
    AllPointsAfterUpdate(cities, i, cities[i]);
    assert cities == cities[i := cities[i]];
    var before := AllPoints(cities[..i]);
    var ids := Ids(PointsOf(cities[i]));
    forall a, b | 0 <= a < b < |ids| ensures ids[a] != ids[b] {
      assert Ids(AllPoints(cities))[|before| + a] == ids[a];
      assert Ids(AllPoints(cities))[|before| + b] == ids[b];
    }
  }

  /** PUT and PATCH keep every id, so every lookup finds the same position afterwards. */
  lemma LocateAfterSetPointFields(cities: seq<City>, loc: Loc, name: string, description: string, cityId: int32, pointId: int32)
    requires ValidLoc(cities, loc) && FoundCityHasList(cities, cityId)
    ensures FoundCityHasList(SetPointFields(cities, loc, name, description), cityId)
    ensures Locate(SetPointFields(cities, loc, name, description), cityId, pointId) == Locate(cities, cityId, pointId)
  {
    var r := SetPointFields(cities, loc, name, description);
    assert r == cities[loc.city := r[loc.city]];
    FirstIndexAfterUpdate(cities, loc.city, r[loc.city], HasCityId(cityId));
    var points := cities[loc.city].points.value;
    assert r[loc.city].points.value == points[loc.point := PointAt(r, loc)];
    FirstIndexAfterUpdate(points, loc.point, PointAt(r, loc), HasPointId(pointId));
  }

  /** Everything `SelectMany` yields is a point of some city. */
  lemma {:induction false} AllPointsMember(cities: seq<City>, p: Point)
    requires p in AllPoints(cities)
    ensures exists i, k :: 0 <= i < |cities| && 0 <= k < |PointsOf(cities[i])| && PointsOf(cities[i])[k] == p
  {
    if p in PointsOf(cities[0]) {
      var k :| 0 <= k < |PointsOf(cities[0])| && PointsOf(cities[0])[k] == p;
      assert PointsOf(cities[0])[k] == p;
    } else {
      AllPointsMember(cities[1..], p);
      var i, k :| 0 <= i < |cities[1..]| && 0 <= k < |PointsOf(cities[1..][i])| && PointsOf(cities[1..][i])[k] == p;
      assert PointsOf(cities[i + 1])[k] == p;
    }
  }
}
