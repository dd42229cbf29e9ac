# CityInfo points of interest, modelled in Dafny

This project models the points-of-interest handlers of the CityInfo web API
(`PointsOfInterestController`). The in-memory data store holds a list of
cities. Each city owns an ordered list of points of interest, and each point
has an id, a name and a description. The six handlers are:

- list a city's points;
- get one point;
- create a point (POST);
- overwrite a point's name and description (PUT);
- apply a JSON Patch to a point (PATCH);
- delete a point.

Files:

- `wrappers.dfy`: `Option`, which stands for a C# null.
- `sequences.dfy`: the .NET collection operations the handlers use, as
  functions on sequences. `FirstIndex` is LINQ `FirstOrDefault`,
  `RemoveFirst` is `List<T>.Remove` and `Max` is LINQ `Max`. The file also
  holds the lemmas about them.
- `data_store.dfy`: the `Point` and `City` records and the `CitiesDataStore`
  class, whose `cities` field the handlers update. It also has the two
  lookups every single-point handler starts with (`Locate`), the state
  changes of PUT/PATCH (`SetPointFields`) and DELETE (`RemovePoint`), and the
  store invariant `UniqueIds`: no two stored points share an id, in one city
  or across cities.
- `points_of_interest.dfy`: the handlers and the properties proved about
  them.

The C# handlers read the static singleton `CitiesDataStore.Current`. Here the
store is explicit:

- the read handlers and POST are functions of the store's `cities`;
- PUT, PATCH and DELETE are methods that take the `CitiesDataStore` object and
  modify it.

`City.points` is an `Option`, so the null list that the list handler checks
for is represented. Ids are C# `int` values (`int32`). The `++` that makes a
new id is unchecked C# arithmetic, so it is modelled as addition modulo 2^32.

The model follows the code in four places where one might expect something
else:

- POST builds the new point and answers 201 with its route, but it never adds
  the point to the city's list. The store is unchanged. As long as no stored
  id is `int.MaxValue`, a later GET of the advertised route gives NotFound
  (`CreatedPointIsNotStored`). So with points 1 and 2 in city 1, creating "C"
  and then deleting point 1 leaves a list holding point 2 only. One might
  expect points 2 and 3 (`CreateDeleteList`).
- The new id is the largest id over all cities, incremented as a C# `int`.
  It exceeds every stored id only while no stored id is `int.MaxValue`. At
  that value the increment wraps to `int.MinValue`
  (`CreateIdExceedsAll`, `CreateIdWrapsAtInt32Max`). A GET of the advertised
  route can then find a stored point that already has the id `int.MinValue`.
- The list handler answers NotFound for a null list. GET of one point, PUT,
  PATCH and DELETE read the list without checking it.
- A failed PATCH answers 400 (`BadRequest`). The model does not carry the
  field-level error details.

## Model

| member | source | states |
|---|---|---|
| `Sequences.FirstIndex` | CityInfo.API/Controllers/PointsOfInterestController.cs:31 | `FirstOrDefault`: the result is the first position whose element matches, and None exactly when no element matches |
| `Sequences.RemoveAt` | CityInfo.API/Controllers/PointsOfInterestController.cs:119 | removing one position shortens the list by one and keeps the other elements in their order |
| `Sequences.RemoveFirst` | CityInfo.API/Controllers/PointsOfInterestController.cs:119 | `List<T>.Remove`: one element fewer when the value occurs, the list unchanged when it does not; `RemoveFirstIsRemoveAt` says which element goes |
| `Sequences.RemoveFirstIsRemoveAt` | CityInfo.API/Controllers/PointsOfInterestController.cs:116-119 | `List.Remove` of the first element with a given id removes exactly that position |
| `Sequences.FirstIndexAfterRemoveAt` | CityInfo.API/Controllers/PointsOfInterestController.cs:116-119 | removing an element that does not match leaves the first match as the same element |
| `Sequences.FirstIndexAfterUpdate` | CityInfo.API/Controllers/PointsOfInterestController.cs:77-78 | replacing an element by one that matches exactly when the old one did leaves the first match's position unchanged |
| `Sequences.Max` | CityInfo.API/Controllers/PointsOfInterestController.cs:50 | LINQ `Max`, defined only for a non-empty list: the result is an element and is no smaller than any element |
| `Sequences.DistinctRemoveAt` | CityInfo.API/Controllers/PointsOfInterestController.cs:119 | removing an element keeps a duplicate-free list duplicate-free |
| `DataStore.Locate` | CityInfo.API/Controllers/PointsOfInterestController.cs:71-75 | the lookups of a single-point handler: the first city with the city id, then that city's first point with the point id; None exactly when no such point exists there |
| `DataStore.CitiesDataStore.constructor` | CityInfo.API/Controllers/PointsOfInterestController.cs:15 | the store object that stands for `CitiesDataStore.Current` holds exactly the cities it is given |
| `DataStore.FindCity` | CityInfo.API/Controllers/PointsOfInterestController.cs:15 | `Cities.FirstOrDefault(x => x.Id == cityId)`: the first city with the id, and None exactly when no city has it |
| `DataStore.FindPoint` | CityInfo.API/Controllers/PointsOfInterestController.cs:31 | `PointsOfInterest.FirstOrDefault(x => x.Id == pointId)`: the first point with the id, and None exactly when no point has it |
| `DataStore.SetPointFields` | CityInfo.API/Controllers/PointsOfInterestController.cs:77-78 | the point's name and description are replaced and its id is kept; every other point, the city's own fields and every other city are unchanged |
| `DataStore.RemovePoint` | CityInfo.API/Controllers/PointsOfInterestController.cs:119 | the point is removed from its city's list; the city's fields and every other city are unchanged |
| `DataStore.AllPointsAfterUpdate` | CityInfo.API/Controllers/PointsOfInterestController.cs:50 | replacing one city changes the `SelectMany` result only in that city's part of it |
| `DataStore.InAllPoints` | CityInfo.API/Controllers/PointsOfInterestController.cs:50 | every point of every city is in `AllPoints`, the model of the `SelectMany` result |
| `DataStore.AllPointsMember` | CityInfo.API/Controllers/PointsOfInterestController.cs:50 | every element of `AllPoints`, the model of the `SelectMany` result, is a point of some city |
| `DataStore.AllPointsAt` | CityInfo.API/Controllers/PointsOfInterestController.cs:50 | in `AllPoints`, each city's points follow the points of the cities before it, in their own order |
| `DataStore.AllPointsPrefix` | CityInfo.API/Controllers/PointsOfInterestController.cs:50 | the `SelectMany` result of a longer prefix of the cities begins with the result of a shorter prefix followed by the points of the next city |
| `DataStore.UniqueIdsAcrossCities` | CityInfo.API/Controllers/PointsOfInterestController.cs:50-54 | what the store invariant `UniqueIds` means: two different stored points never share an id, whether they are in one city or in two |
| `DataStore.SetPointFieldsKeepsIds` | CityInfo.API/Controllers/PointsOfInterestController.cs:77-78 | overwriting name and description keeps the sequence of all stored ids, so global id uniqueness is preserved |
| `DataStore.RemovePointFromAllPoints` | CityInfo.API/Controllers/PointsOfInterestController.cs:119 | a delete removes exactly one element from the `SelectMany` result |
| `DataStore.RemovePointKeepsUniqueIds` | CityInfo.API/Controllers/PointsOfInterestController.cs:119 | a delete preserves global id uniqueness |
| `DataStore.UniqueIdsWithinCity` | CityInfo.API/Controllers/PointsOfInterestController.cs:116-117 | global id uniqueness implies that no city holds two points with the same id |
| `DataStore.LocateAfterSetPointFields` | CityInfo.API/Controllers/PointsOfInterestController.cs:74-78 | after a name and description overwrite, every lookup finds the same position as before |
| `PointsOfInterestController.GetPointsOfInterest` | CityInfo.API/Controllers/PointsOfInterestController.cs:13-21 | answers with the first matching city's list as stored; NotFound exactly when no city has the id or that city's list is null |
| `PointsOfInterestController.GetPointOfInterest` | CityInfo.API/Controllers/PointsOfInterestController.cs:25-34 | answers with the first point having the point id in the first city having the city id; NotFound exactly when no such point exists |
| `PointsOfInterestController.MissingCityIsNotFound` | CityInfo.API/Controllers/PointsOfInterestController.cs:15-17 | when no city has the id, the lookups fail and the list, get and create handlers answer NotFound |
| `PointsOfInterestController.MissingPointIsNotFound` | CityInfo.API/Controllers/PointsOfInterestController.cs:31-33 | when the city exists but holds no point with the id, the lookups fail and GET answers NotFound |
| `PointsOfInterestController.Increment32` | CityInfo.API/Controllers/PointsOfInterestController.cs:54 | `++` on a C# int is one more, modulo 2^32 |
| `PointsOfInterestController.MaxPointId` | CityInfo.API/Controllers/PointsOfInterestController.cs:50 | the largest id over every city's points: it is a stored id and no stored id exceeds it |
| `PointsOfInterestController.CreatePointOfInterest` | CityInfo.API/Controllers/PointsOfInterestController.cs:46-65 | NotFound exactly when no city has the id; otherwise 201 with route (cityId, new id), where the new id is the largest id over all cities plus one as C# `int` arithmetic, and a point with that id whose name and description come from the payload |
| `PointsOfInterestController.CreateIdExceedsAll` | CityInfo.API/Controllers/PointsOfInterestController.cs:50-54 | the new id is greater than every stored id, in every city, exactly when no stored id is int.MaxValue |
| `PointsOfInterestController.CreateIdWrapsAtInt32Max` | CityInfo.API/Controllers/PointsOfInterestController.cs:54 | when some stored id is int.MaxValue, the new id is int.MinValue |
| `PointsOfInterestController.CreatedPointIsNotStored` | CityInfo.API/Controllers/PointsOfInterestController.cs:52-65 | the store is not changed, so when no stored id is int.MaxValue a GET of the advertised route answers NotFound |
| `PointsOfInterestController.UpdatePointOfInterest` | CityInfo.API/Controllers/PointsOfInterestController.cs:69-80 | PUT: NotFound with the store unchanged when a lookup fails; otherwise NoContent, and exactly the found point's name and description are overwritten; id uniqueness is kept |
| `PointsOfInterestController.UpdateThenGet` | CityInfo.API/Controllers/PointsOfInterestController.cs:74-80 | after PUT, the point reads back with its id and the new name and description |
| `PointsOfInterestController.UpdateLeavesOtherLookups` | CityInfo.API/Controllers/PointsOfInterestController.cs:74-78 | after PUT, every lookup that did not find the updated point gets the same response as before |
| `PointsOfInterestController.ApplyPatch` | CityInfo.API/Controllers/PointsOfInterestController.cs:98-100 | applying the replace operations fails exactly when one targets an unknown member; otherwise each field holds the value of the last replace that targets it, or keeps its value when none does |
| `PointsOfInterestController.ApplyOperation` | CityInfo.API/Controllers/PointsOfInterestController.cs:98 | one replace: it fails exactly when the path names no member, and otherwise it sets the targeted field and leaves the other one alone |
| `PointsOfInterestController.PartiallyUpdatePointOfInterest` | CityInfo.API/Controllers/PointsOfInterestController.cs:84-107 | PATCH: NotFound with the store unchanged when a lookup fails; the patch is applied to a copy of the stored name and description; BadRequest with the store unchanged when the patch fails or the copy is invalid; otherwise NoContent and exactly the copy's name and description are stored |
| `PointsOfInterestController.EmptyNamePatchIsRejected` | CityInfo.API/Controllers/PointsOfInterestController.cs:98-102 | if validation rejects empty names, a patch whose last operation on the name empties it is answered with BadRequest, whatever operations on other fields follow |
| `PointsOfInterestController.DeletePointOfInterest` | CityInfo.API/Controllers/PointsOfInterestController.cs:111-121 | DELETE: NotFound with the store unchanged when a lookup fails; otherwise NoContent and exactly the found point is removed from its city; id uniqueness is kept |
| `PointsOfInterestController.DeleteThenGetNotFound` | CityInfo.API/Controllers/PointsOfInterestController.cs:116-121 | after DELETE, GET of that id answers NotFound when the city held no other point with that id |
| `PointsOfInterestController.DeleteThenGetNotFoundWithUniqueIds` | CityInfo.API/Controllers/PointsOfInterestController.cs:116-121 | after DELETE, GET of that id answers NotFound in any store whose ids are unique |
| `PointsOfInterestController.DeleteLeavesSiblings` | CityInfo.API/Controllers/PointsOfInterestController.cs:116-121 | after DELETE, the lookup of any other id, in any city, gets the same response as before |
| `PointsOfInterestController.DeleteThenList` | CityInfo.API/Controllers/PointsOfInterestController.cs:119 | after DELETE, the city's list is the old list without the removed point, with the rest in their order |
| `PointsOfInterestController.CreateDeleteList` | CityInfo.API/Controllers/PointsOfInterestController.cs:46-121 | with points 1 and 2 in city 1, POST answers id 3, DELETE of 1 answers NoContent, and the list then holds point 2 only |

## Left out

- CityInfo.API/Controllers/CitiesController.cs is not part of this model. It delegates to a repository, a mapper and a logger whose code is not available; its only local logic is capping the page size at 10.
- CitiesDataStore.cs and the DTO classes are not part of this model. The store's seed data and the DTOs' data-annotation rules are not available. Validation (`TryValidateModel`) is therefore the parameter `isValid` of the PATCH method.
- PointsOfInterestController.GetPointOfInterest: requires the found city's list to be non-null. The C# code dereferences it unchecked and would throw, which becomes a 500 response; that path is not modelled.
- PointsOfInterestController.UpdatePointOfInterest: same non-null requirement and reason as GetPointOfInterest.
- PointsOfInterestController.PartiallyUpdatePointOfInterest: same non-null requirement and reason as GetPointOfInterest.
- PointsOfInterestController.DeletePointOfInterest: same non-null requirement and reason as GetPointOfInterest.
- PointsOfInterestController.CreatePointOfInterest: once the city is found, requires every list to be non-null and at least one point in the store. `SelectMany` over a null list and `Max` over no points throw; that 500 path is not modelled.
- HTTP plumbing is not modelled: routing, URL generation for `CreatedAtRoute`, status codes and serialisation. Automatic `[ApiController]` validation and binding of POST and PUT bodies and of the PATCH document, which answers 400 before a handler runs, is also left out.
- The contents of `ModelState` are not modelled; a failed PATCH is just `BadRequest`.
- JSON Patch is reduced to "replace" operations. Resolving a JSON Pointer to a DTO member, including case-insensitive matching, is taken as given (`PatchPath`). Other operation kinds and null values are left out.
- Aliasing is not modelled: cities and points are values held in the store's sequence. In C#, a point object shared by two lists would change in both, and GET hands out the live list. `List.Remove` compares by reference while `RemoveFirst` compares values; in DELETE both remove the same position, because every earlier point has another id (`RemoveFirstIsRemoveAt`).
- Concurrency is not modelled. The C# store is shared by requests without locking.
