/**
 * The handlers of `PointsOfInterestController`, the resource
 * /api/cities/{cityId}/pointsofinterest. The read handlers and POST only
 * compute a response from the store's cities; PUT, PATCH and DELETE change
 * the store they are given.
 */
module PointsOfInterestController {
  import opened Wrappers
  import opened Sequences
  import opened DataStore

  /** `PointOfInterestForCreationDto`: the body of a POST. */
  datatype PointForCreation = PointForCreation(name: string, description: string)

  /** `PointOfInterestForUpdateDto`: the body of a PUT, and the copy a PATCH works on. */
  datatype PointForUpdate = PointForUpdate(name: string, description: string)

  /** The action results the handlers return (404, 400, 204, 200 with a body, 201 with a route). */
  datatype Response =
    | NotFound
    | BadRequest
    | NoContent
    | OkPoints(points: seq<Point>)
    | OkPoint(point: Point)
    | CreatedAtRoute(cityId: int32, pointId: int32, point: Point)

  // ---------------------------------------------------------------- GET

  /** GET /cities/{cityId}/pointsofinterest: the first matching city's list as stored; a null list is NotFound too. */
  function GetPointsOfInterest(cities: seq<City>, cityId: int32): (r: Response)
    ensures r.NotFound? || r.OkPoints?
    ensures r.OkPoints? <==>
      exists i: nat :: IsFirstMatch(cities, HasCityId(cityId), i) && cities[i].points.Some?
    ensures r.OkPoints? ==>
      forall i: nat :: IsFirstMatch(cities, HasCityId(cityId), i) ==> cities[i].points == Some(r.points)
  {
    match FindCity(cities, cityId)
    case None => NotFound
    case Some(i) =>
      match cities[i].points
      case None => NotFound
      case Some(points) => OkPoints(points)
  }

  /** GET /cities/{cityId}/pointsofinterest/{pointId}: the first point with that id in the first city with that id. */
  function GetPointOfInterest(cities: seq<City>, cityId: int32, pointId: int32): (r: Response)
    requires FoundCityHasList(cities, cityId)
    ensures r.NotFound? || r.OkPoint?
    ensures r.OkPoint? ==> r.point.id == pointId
    ensures r.OkPoint? ==>
      exists i: nat, k: nat ::
        && IsFirstMatch(cities, HasCityId(cityId), i)
        && IsFirstMatch(PointsOf(cities[i]), HasPointId(pointId), k)
        && r.point == PointsOf(cities[i])[k]
    ensures r.NotFound? ==>
      forall i: nat, k ::
        IsFirstMatch(cities, HasCityId(cityId), i) && 0 <= k < |PointsOf(cities[i])|
        ==> PointsOf(cities[i])[k].id != pointId
  {
    match Locate(cities, cityId, pointId)
    case None => NotFound
    case Some(loc) => OkPoint(PointAt(cities, loc))
  }

  /**
   * With no city of id `cityId` every handler answers NotFound; PUT, PATCH
   * and DELETE answer NotFound and leave the store alone exactly when
   * Locate gives None.
   */
  lemma MissingCityIsNotFound(cities: seq<City>, cityId: int32, pointId: int32, creation: PointForCreation)
    requires forall i :: 0 <= i < |cities| ==> cities[i].id != cityId
    ensures FoundCityHasList(cities, cityId) && Locate(cities, cityId, pointId).None?
    ensures GetPointsOfInterest(cities, cityId) == NotFound
    ensures GetPointOfInterest(cities, cityId, pointId) == NotFound
    ensures CreatePointOfInterest(cities, cityId, creation) == NotFound
  {
    assert FindCity(cities, cityId).None? by {
      forall i | 0 <= i < |cities| ensures !HasCityId(cityId)(cities[i]) { }
    }
  }

  /** When the first city of id `cityId` has a list holding no point of id `pointId`, the lookups give NotFound. */
  lemma MissingPointIsNotFound(cities: seq<City>, cityId: int32, pointId: int32, i: nat)
    requires IsFirstMatch(cities, HasCityId(cityId), i) && cities[i].points.Some?
    requires forall k :: 0 <= k < |PointsOf(cities[i])| ==> PointsOf(cities[i])[k].id != pointId
    ensures FoundCityHasList(cities, cityId) && Locate(cities, cityId, pointId).None?
    ensures GetPointOfInterest(cities, cityId, pointId) == NotFound
  {
    assert PointsOf(cities[i]) == cities[i].points.value;
    assert FindPoint(cities[i].points.value, pointId).None? by {
      forall k | 0 <= k < |PointsOf(cities[i])| ensures !HasPointId(pointId)(PointsOf(cities[i])[k]) { }
    }
  }

  // ---------------------------------------------------------------- POST

  /** `++` on a C# `int`: arithmetic is unchecked, so it is addition of one modulo 2^32. */
  function Increment32(x: int32): (y: int32)
    ensures (y - x - 1) % 0x1_0000_0000 == 0
  {
    if x == MAX_INT32 then MIN_INT32 else x + 1
  }

  /** `SelectMany(c => c.PointsOfInterest).Max(x => x.Id)`; SelectMany throws on a null list and Max on no points. */
  function MaxPointId(cities: seq<City>): (m: int32)
    requires AllListsPresent(cities) && |AllPoints(cities)| > 0
    ensures m in Ids(AllPoints(cities))
    ensures forall i, k :: 0 <= i < |cities| && 0 <= k < |PointsOf(cities[i])| ==> PointsOf(cities[i])[k].id <= m
  {
    var ids := Ids(AllPoints(cities));
    var m := Max(ids);
    assert forall i, k :: 0 <= i < |cities| && 0 <= k < |PointsOf(cities[i])| ==> PointsOf(cities[i])[k].id in ids by {
      forall i, k | 0 <= i < |cities| && 0 <= k < |PointsOf(cities[i])| ensures PointsOf(cities[i])[k].id in ids {
        InAllPoints(cities, i, k);
        var j :| 0 <= j < |AllPoints(cities)| && AllPoints(cities)[j] == PointsOf(cities[i])[k];
        assert ids[j] == PointsOf(cities[i])[k].id;
      }
    }
    var j :| 0 <= j < |ids| && ids[j] == m;
    assert m == AllPoints(cities)[j].id;
    m
  }

  /**
   * POST /cities/{cityId}/pointsofinterest. The new point gets the next id
   * after the largest id in the whole store, and the response names the
   * route (cityId, new id) and carries the point. The point is never added
   * to the city's list.
   */
  function CreatePointOfInterest(cities: seq<City>, cityId: int32, creation: PointForCreation): (r: Response)
    requires FindCity(cities, cityId).Some? ==> AllListsPresent(cities) && |AllPoints(cities)| > 0
    ensures r.NotFound? || r.CreatedAtRoute?
    ensures r.NotFound? <==> forall i :: 0 <= i < |cities| ==> cities[i].id != cityId
    ensures r.CreatedAtRoute? ==>
      r.cityId == cityId && r.point == Point(r.pointId, creation.name, creation.description)
    ensures r.CreatedAtRoute? ==> r.pointId == Increment32(MaxPointId(cities))
  {
    match FindCity(cities, cityId)
    case None => NotFound
    case Some(_) =>
      var newPoint := Point(Increment32(MaxPointId(cities)), creation.name, creation.description);
      CreatedAtRoute(cityId, newPoint.id, newPoint)
  }

  /** No stored point, in any city, has the id int.MaxValue. */
  ghost predicate BelowInt32Max(cities: seq<City>)
  {
    forall i, k :: 0 <= i < |cities| && 0 <= k < |PointsOf(cities[i])| ==> PointsOf(cities[i])[k].id != MAX_INT32
  }

  /** The new id is larger than every stored id, in every city, exactly when no stored id is int.MaxValue. */
  lemma CreateIdExceedsAll(cities: seq<City>, cityId: int32, creation: PointForCreation)
    requires FindCity(cities, cityId).Some? && AllListsPresent(cities) && |AllPoints(cities)| > 0
    ensures var r := CreatePointOfInterest(cities, cityId, creation);
      (forall i, k :: 0 <= i < |cities| && 0 <= k < |PointsOf(cities[i])| ==> PointsOf(cities[i])[k].id < r.pointId)
      <==> BelowInt32Max(cities)
  {
    var r := CreatePointOfInterest(cities, cityId, creation);
    var m := MaxPointId(cities);
    var j :| 0 <= j < |AllPoints(cities)| && Ids(AllPoints(cities))[j] == m;
    var p := AllPoints(cities)[j];
    AllPointsMember(cities, p);
    if BelowInt32Max(cities) {
      assert m != MAX_INT32;
    } else {
      assert m == MAX_INT32;
      assert r.pointId == MIN_INT32;
    }
  }

  /** When some stored id is int.MaxValue, the increment wraps and the new id is int.MinValue. */
  lemma CreateIdWrapsAtInt32Max(cities: seq<City>, cityId: int32, creation: PointForCreation, i: nat, k: nat)
    requires FindCity(cities, cityId).Some? && AllListsPresent(cities) && |AllPoints(cities)| > 0
    requires i < |cities| && k < |PointsOf(cities[i])| && PointsOf(cities[i])[k].id == MAX_INT32
    ensures CreatePointOfInterest(cities, cityId, creation).pointId == MIN_INT32
  {
    assert MaxPointId(cities) >= PointsOf(cities[i])[k].id;
  }

  /** The created point is not stored: asking for it at the advertised route gives NotFound. */
  lemma CreatedPointIsNotStored(cities: seq<City>, cityId: int32, creation: PointForCreation)
    requires FindCity(cities, cityId).Some? && AllListsPresent(cities) && |AllPoints(cities)| > 0
    requires BelowInt32Max(cities)
    ensures var r := CreatePointOfInterest(cities, cityId, creation);
      FoundCityHasList(cities, r.cityId) && GetPointOfInterest(cities, r.cityId, r.pointId) == NotFound
  {
    CreateIdExceedsAll(cities, cityId, creation);
  }

  // ---------------------------------------------------------------- PUT

  /**
   * PUT /cities/{cityId}/pointsofinterest/{pointId}: overwrites the name and
   * description of the point the lookups find, in place, and nothing else.
   */
  method UpdatePointOfInterest(store: CitiesDataStore, cityId: int32, pointId: int32, update: PointForUpdate)
    returns (r: Response)
    requires FoundCityHasList(store.cities, cityId)
    modifies store
    ensures match Locate(old(store.cities), cityId, pointId)
      case None => r == NotFound && store.cities == old(store.cities)
      case Some(loc) =>
        r == NoContent && store.cities == SetPointFields(old(store.cities), loc, update.name, update.description)
    ensures UniqueIds(old(store.cities)) ==> UniqueIds(store.cities)
  {
    var cityIndex := FindCity(store.cities, cityId);
    if cityIndex.None? {
      return NotFound;
    }
    var city := store.cities[cityIndex.value];
    var points := city.points.value;
    var pointIndex := FindPoint(points, pointId);
    if pointIndex.None? {
      return NotFound;
    }
    var loc := Loc(cityIndex.value, pointIndex.value);
    var pointToUpdate := points[pointIndex.value];
    pointToUpdate := pointToUpdate.(name := update.name);
    pointToUpdate := pointToUpdate.(description := update.description);
    SetPointFieldsKeepsIds(store.cities, loc, update.name, update.description);
    store.cities := store.cities[cityIndex.value := city.(points := Some(points[pointIndex.value := pointToUpdate]))];
    r := NoContent;
  }

  /** After a PUT, the point reads back with its id and the new name and description. */
  lemma UpdateThenGet(cities: seq<City>, cityId: int32, pointId: int32, name: string, description: string)
    requires FoundCityHasList(cities, cityId) && Locate(cities, cityId, pointId).Some?
    ensures var after := SetPointFields(cities, Locate(cities, cityId, pointId).value, name, description);
      FoundCityHasList(after, cityId) && GetPointOfInterest(after, cityId, pointId) == OkPoint(Point(pointId, name, description))
  {
    LocateAfterSetPointFields(cities, Locate(cities, cityId, pointId).value, name, description, cityId, pointId);
  }

  /** After a PUT, every lookup that did not find the updated point gives the same response as before. */
  lemma UpdateLeavesOtherLookups(cities: seq<City>, loc: Loc, name: string, description: string, cityId: int32, pointId: int32)
    requires ValidLoc(cities, loc) && FoundCityHasList(cities, cityId)
    requires Locate(cities, cityId, pointId) != Some(loc)
    ensures var after := SetPointFields(cities, loc, name, description);
      FoundCityHasList(after, cityId) && GetPointOfInterest(after, cityId, pointId) == GetPointOfInterest(cities, cityId, pointId)
  {
    LocateAfterSetPointFields(cities, loc, name, description, cityId, pointId);
    var after := SetPointFields(cities, loc, name, description);
    match Locate(cities, cityId, pointId)
    case None =>
    case Some(other) =>
      assert other.city != loc.city || other.point != loc.point;
      assert PointAt(after, other) == PointAt(cities, other);
  }

  // ---------------------------------------------------------------- PATCH

  /** The target of a patch operation: the JSON Pointer "/name", "/description", or one the DTO has no member for. */
  datatype PatchPath = NamePath | DescriptionPath | UnknownPath(pointer: string)

  /** A "replace" operation of a JSON Patch document (section 4.3 of RFC 6902). */
  datatype PatchOperation = Replace(path: PatchPath, value: string)

  /** One operation applied to the copy; a path with no member is an error. */
  function ApplyOperation(target: PointForUpdate, op: PatchOperation): (r: Option<PointForUpdate>)
    ensures r.None? <==> op.path.UnknownPath?
    ensures r.Some? ==> (r.value.name == if op.path == NamePath then op.value else target.name)
    ensures r.Some? ==> (r.value.description == if op.path == DescriptionPath then op.value else target.description)
  {
    match op.path
    case NamePath => Some(target.(name := op.value))
    case DescriptionPath => Some(target.(description := op.value))
    case UnknownPath(_) => None
  }

  /**
   * The field at `path` ends as `final`: either no operation of the patch
   * targets it and it keeps `initial`, or the last operation that targets it
   * sets `final`.
   */
  ghost predicate LastReplaceWins(patch: seq<PatchOperation>, path: PatchPath, initial: string, final: string)
  {
    || ((forall k :: 0 <= k < |patch| ==> patch[k].path != path) && final == initial)
    || (exists k :: 0 <= k < |patch| && patch[k] == Replace(path, final)
          && forall j :: k < j < |patch| ==> patch[j].path != path)
  }

  /**
   * `patchDocument.ApplyTo(pointToPatch, ModelState)`: the operations in
   * order. Any failed operation leaves an error in the model state, which
   * the handler then answers with BadRequest; None stands for that.
   */
  function ApplyPatch(target: PointForUpdate, patch: seq<PatchOperation>): (r: Option<PointForUpdate>)
    ensures r.None? <==> exists k :: 0 <= k < |patch| && patch[k].path.UnknownPath?
    ensures r.Some? ==> LastReplaceWins(patch, NamePath, target.name, r.value.name)
    ensures r.Some? ==> LastReplaceWins(patch, DescriptionPath, target.description, r.value.description)
    decreases |patch|
  {
    if |patch| == 0 then Some(target)
    else
      match ApplyOperation(target, patch[0])
      case None => None
      case Some(next) => ApplyPatch(next, patch[1..])
  }

  /**
   * PATCH /cities/{cityId}/pointsofinterest/{pointId}: the patch is applied
   * to a copy holding the stored name and description; a patch error or a
   * copy that fails validation gives BadRequest and leaves the store alone,
   * otherwise the copy's name and description are written back.
   * `isValid` is `TryValidateModel`, whose rules are not part of this model.
   */
  method PartiallyUpdatePointOfInterest(
    store: CitiesDataStore, cityId: int32, pointId: int32, patch: seq<PatchOperation>, isValid: PointForUpdate -> bool)
    returns (r: Response)
    requires FoundCityHasList(store.cities, cityId)
    modifies store
    ensures match Locate(old(store.cities), cityId, pointId)
      case None => r == NotFound && store.cities == old(store.cities)
      case Some(loc) =>
        var stored := PointAt(old(store.cities), loc);
        var patched := ApplyPatch(PointForUpdate(stored.name, stored.description), patch);
        if patched.Some? && isValid(patched.value) then
          r == NoContent
          && store.cities == SetPointFields(old(store.cities), loc, patched.value.name, patched.value.description)
        else
          r == BadRequest && store.cities == old(store.cities)
    ensures UniqueIds(old(store.cities)) ==> UniqueIds(store.cities)
  {
    var cityIndex := FindCity(store.cities, cityId);
    if cityIndex.None? {
      return NotFound;
    }
    var city := store.cities[cityIndex.value];
    var points := city.points.value;
    var pointIndex := FindPoint(points, pointId);
    if pointIndex.None? {
      return NotFound;
    }
    var loc := Loc(cityIndex.value, pointIndex.value);
    var pointFromStore := points[pointIndex.value];
    var pointToPatch := PointForUpdate(pointFromStore.name, pointFromStore.description);
    var patched := ApplyPatch(pointToPatch, patch);
    if patched.None? {
      return BadRequest;
    }
    pointToPatch := patched.value;
    if !isValid(pointToPatch) {
      return BadRequest;
    }
    pointFromStore := pointFromStore.(name := pointToPatch.name);
    pointFromStore := pointFromStore.(description := pointToPatch.description);
    SetPointFieldsKeepsIds(store.cities, loc, pointToPatch.name, pointToPatch.description);
    store.cities := store.cities[cityIndex.value := city.(points := Some(points[pointIndex.value := pointFromStore]))];
    r := NoContent;
  }

  /**
   * A patch whose last operation on the name empties it cannot pass a
   * validation that requires a non-empty name, so the PATCH gives BadRequest
   * and the store stays as it was.
   */
  lemma EmptyNamePatchIsRejected(target: PointForUpdate, patch: seq<PatchOperation>, isValid: PointForUpdate -> bool)
    requires forall u: PointForUpdate :: u.name == "" ==> !isValid(u)
    requires exists k ::
      0 <= k < |patch| && patch[k] == Replace(NamePath, "") && forall j :: k < j < |patch| ==> patch[j].path != NamePath
    ensures ApplyPatch(target, patch).None? || !isValid(ApplyPatch(target, patch).value)
  {
    var r := ApplyPatch(target, patch);
    if r.Some? {
      var last :| 0 <= last < |patch| && patch[last] == Replace(NamePath, "")
        && forall j :: last < j < |patch| ==> patch[j].path != NamePath;
      assert LastReplaceWins(patch, NamePath, target.name, r.value.name);
      assert r.value.name == "" by {
        var k :| 0 <= k < |patch| && patch[k] == Replace(NamePath, r.value.name)
          && forall j :: k < j < |patch| ==> patch[j].path != NamePath;
        assert k == last;
      }
    }
  }

  // ---------------------------------------------------------------- DELETE

  /**
   * DELETE /cities/{cityId}/pointsofinterest/{pointId}: `List.Remove` of the
   * point the lookups find, which takes exactly that point out of its
   * city's list.
   */
  method DeletePointOfInterest(store: CitiesDataStore, cityId: int32, pointId: int32) returns (r: Response)
    requires FoundCityHasList(store.cities, cityId)
    modifies store
    ensures match Locate(old(store.cities), cityId, pointId)
      case None => r == NotFound && store.cities == old(store.cities)
      case Some(loc) => r == NoContent && store.cities == RemovePoint(old(store.cities), loc)
    ensures UniqueIds(old(store.cities)) ==> UniqueIds(store.cities)
  {
    var cityIndex := FindCity(store.cities, cityId);
    if cityIndex.None? {
      return NotFound;
    }
    var city := store.cities[cityIndex.value];
    var points := city.points.value;
    var pointIndex := FindPoint(points, pointId);
    if pointIndex.None? {
      return NotFound;
    }
    var loc := Loc(cityIndex.value, pointIndex.value);
    var pointFromStore := points[pointIndex.value];
    assert forall j :: 0 <= j < pointIndex.value ==> points[j] != pointFromStore by {
      forall j | 0 <= j < pointIndex.value ensures points[j] != pointFromStore {
        assert !HasPointId(pointId)(points[j]);
      }
    }
    RemoveFirstIsRemoveAt(points, pointIndex.value);
    if UniqueIds(store.cities) {
      RemovePointKeepsUniqueIds(store.cities, loc);
    }
    store.cities := store.cities[cityIndex.value := city.(points := Some(RemoveFirst(points, pointFromStore)))];
    r := NoContent;
  }

  /** After a DELETE, when the city held no other point with that id, the point reads back as NotFound. */
  lemma DeleteThenGetNotFound(cities: seq<City>, cityId: int32, pointId: int32)
    requires FoundCityHasList(cities, cityId) && Locate(cities, cityId, pointId).Some?
    requires var loc := Locate(cities, cityId, pointId).value;
      forall k :: 0 <= k < |PointsOf(cities[loc.city])| && k != loc.point ==> PointsOf(cities[loc.city])[k].id != pointId
    ensures var after := RemovePoint(cities, Locate(cities, cityId, pointId).value);
      FoundCityHasList(after, cityId) && GetPointOfInterest(after, cityId, pointId) == NotFound
  {
    var loc := Locate(cities, cityId, pointId).value;
    var after := RemovePoint(cities, loc);
    assert after == cities[loc.city := after[loc.city]];
    FirstIndexAfterUpdate(cities, loc.city, after[loc.city], HasCityId(cityId));
    var points := PointsOf(cities[loc.city]);
    var left := PointsOf(after[loc.city]);
    forall k | 0 <= k < |left| ensures left[k].id != pointId {
      if k < loc.point {
        assert !HasPointId(pointId)(points[k]);
      } else {
        assert left[k] == points[k + 1];
      }
    }
  }

  /** A store with unique ids meets the precondition of DeleteThenGetNotFound. */
  lemma DeleteThenGetNotFoundWithUniqueIds(cities: seq<City>, cityId: int32, pointId: int32)
    requires FoundCityHasList(cities, cityId) && Locate(cities, cityId, pointId).Some? && UniqueIds(cities)
    ensures var after := RemovePoint(cities, Locate(cities, cityId, pointId).value);
      FoundCityHasList(after, cityId) && GetPointOfInterest(after, cityId, pointId) == NotFound
  {
    var loc := Locate(cities, cityId, pointId).value;
    var points := PointsOf(cities[loc.city]);
    UniqueIdsWithinCity(cities, loc.city);
    forall k | 0 <= k < |points| && k != loc.point ensures points[k].id != pointId {
      var a, b := if k < loc.point then k else loc.point, if k < loc.point then loc.point else k;
      assert Ids(points)[a] != Ids(points)[b];
    }
    DeleteThenGetNotFound(cities, cityId, pointId);
  }

  /** After a DELETE, every lookup of another id, in any city, gives the same response as before. */
  lemma DeleteLeavesSiblings(cities: seq<City>, loc: Loc, cityId: int32, pointId: int32)
    requires ValidLoc(cities, loc) && FoundCityHasList(cities, cityId)
    requires pointId != PointAt(cities, loc).id
    ensures var after := RemovePoint(cities, loc);
      FoundCityHasList(after, cityId) && GetPointOfInterest(after, cityId, pointId) == GetPointOfInterest(cities, cityId, pointId)
  {
    var after := RemovePoint(cities, loc);
    assert after == cities[loc.city := after[loc.city]];
    FirstIndexAfterUpdate(cities, loc.city, after[loc.city], HasCityId(cityId));
    match FindCity(cities, cityId)
    case None =>
    case Some(i) =>
      if i == loc.city {
        FirstIndexAfterRemoveAt(cities[i].points.value, loc.point, HasPointId(pointId));
      }
  }

  /** After a DELETE, the city's list is the old one without the removed point, the others in their order. */
  lemma DeleteThenList(cities: seq<City>, cityId: int32, pointId: int32)
    requires FoundCityHasList(cities, cityId) && Locate(cities, cityId, pointId).Some?
    ensures var loc := Locate(cities, cityId, pointId).value;
      GetPointsOfInterest(RemovePoint(cities, loc), cityId)
      == OkPoints(RemoveAt(cities[loc.city].points.value, loc.point))
  {
    var loc := Locate(cities, cityId, pointId).value;
    var after := RemovePoint(cities, loc);
    assert after == cities[loc.city := after[loc.city]];
    FirstIndexAfterUpdate(cities, loc.city, after[loc.city], HasCityId(cityId));
  }

  // ---------------------------------------------------------------- a walk-through

  /**
   * City 1 holds points 1 "A" and 2 "B". POST "C" answers with id 3, one
   * past the largest id, but stores nothing; DELETE of point 1 then leaves
   * the list holding point 2 alone.
   */
  method CreateDeleteList() returns (created: Response, deleted: Response, listed: Response)
    ensures created == CreatedAtRoute(1, 3, Point(3, "C", ""))
    ensures deleted == NoContent
    ensures listed == OkPoints([Point(2, "B", "")])
  {
    var store := new CitiesDataStore([City(1, "New York City", "", Some([Point(1, "A", ""), Point(2, "B", "")]))]);
    created := CreatePointOfInterest(store.cities, 1, PointForCreation("C", ""));
    deleted := DeletePointOfInterest(store, 1, 1);
    listed := GetPointsOfInterest(store.cities, 1);
  }
}
