/// The `readings` collection and the data-access functions over it
/// (models/reading.js). Measurements are stored and returned as they
/// arrive; the model never computes with them.
module Readings {
  import opened Store

  /** A measurement value, taken as opaque. */
  type Measure = real

  /** A reading document. The datatype's constructor is the `Reading(...)`
      factory: its thirteen fields are its thirteen arguments, in order. */
  datatype Reading = Reading(
    id: Id,
    deviceName: string,
    time: Time,
    latitude: Measure,
    longitude: Measure,
    humidity: Measure,
    precipitation: Measure,
    temperature: Measure,
    maxWindSpeed: Measure,
    solarRadiation: Measure,
    vaporPressure: Measure,
    windDirection: Measure,
    atmosphericPressure: Measure)

  /** Why a query rejects. */
  datatype QueryError = NoReadingAt(deviceName: string, time: Time) | NoReadingsInRange

  function IdOf(r: Reading): Id { r.id }

  function HasId(id: Id): Reading -> bool { (r: Reading) => r.id == id }

  /** The filter `{deviceName, time}`. */
  function TakenBy(deviceName: string, time: Time): Reading -> bool
  {
    (r: Reading) => r.deviceName == deviceName && r.time == time
  }

  /** The filter `{time: {$gte: start, $lte: end}}`. */
  function TakenBetween(start: Time, end: Time): Reading -> bool
  {
    (r: Reading) => start <= r.time <= end
  }

  /** The batch as `insertMany` stores it: each reading under its new `_id`. */
  function WithIds(batch: seq<Reading>, ids: seq<Id>): seq<Reading>
    requires |ids| == |batch|
  {
    seq(|batch|, i requires 0 <= i < |batch| => batch[i].(id := ids[i]))
  }

  class ReadingCollection {
    var rows: seq<Reading>

    ghost predicate Valid()
      reads this
    {
      KeysDistinct(rows, IdOf)
    }

    constructor ()
      ensures Valid() && rows == []
    {
      rows := [];
    }

    /** `create`: the bulk insert is started but neither awaited nor
        returned, so the call yields nothing whatever the insert does.
        `inserted` says whether the store took the batch. Each reading
        stands for one whose `_id` is null, as its only caller builds it,
        so the store gives it the new `_id` from `ids`. */
    method Create(batch: seq<Reading>, ids: seq<Id>, inserted: bool)
      requires Valid()
      requires |ids| == |batch|
      requires forall i, j :: 0 <= i < j < |ids| ==> ids[i] != ids[j]
      requires forall i, r :: 0 <= i < |ids| && r in rows ==> r.id != ids[i]
      modifies this
      ensures Valid()
      ensures rows == if inserted then old(rows) + WithIds(batch, ids) else old(rows)
    {
      if inserted {
        var added := WithIds(batch, ids);
        var all := rows + added;
        forall a, b | 0 <= a < |all| && 0 <= b < |all| && IdOf(all[a]) == IdOf(all[b]) ensures a == b {
          if a >= |rows| && b >= |rows| {
            assert all[a].id == ids[a - |rows|] && all[b].id == ids[b - |rows|];
          }
        }
        rows := all;
      }
    }

    /** `update`: `updateOne({_id}, {$set: {precipitation}})`. Only the
        precipitation of the reading with that id changes. */
    method Update(id: Id, precipitation: Measure) returns (res: UpdateResult)
      requires Valid()
      modifies this
      ensures Valid()
      ensures |rows| == |old(rows)|
      ensures forall i :: 0 <= i < |rows| ==>
        rows[i] == if old(rows)[i].id == id then old(rows)[i].(precipitation := precipitation) else old(rows)[i]
      ensures res.matchedCount == if exists r :: r in old(rows) && r.id == id then 1 else 0
      ensures res.matchedCount == 0 ==> rows == old(rows)
    {
      match FirstMatch(rows, HasId(id)) {
        case None =>
          res := UpdateResult(0);
        case Some(i) =>
          rows := rows[i := rows[i].(precipitation := precipitation)];
          res := UpdateResult(1);
      }
    }

    /** `getReadingByDateTime`: the first reading from that device at that
        instant, or a rejection. */
    function GetReadingByDateTime(deviceName: string, time: Time): (r: Result<Reading, QueryError>)
      reads this
      ensures r.Ok? ==> r.value in rows && r.value.deviceName == deviceName && r.value.time == time
      ensures r.Ok? ==>
        exists i :: 0 <= i < |rows| && rows[i] == r.value && forall j :: 0 <= j < i ==> !TakenBy(deviceName, time)(rows[j])
      ensures r.Err? <==> forall x :: x in rows ==> !(x.deviceName == deviceName && x.time == time)
      ensures r.Err? ==> r.error == NoReadingAt(deviceName, time)
    {
      match FirstMatch(rows, TakenBy(deviceName, time))
      case Some(i) => Ok(rows[i])
      case None => Err(NoReadingAt(deviceName, time))
    }

    /** `getReadingsByDateRange`: every reading with startTime <= time <=
        endTime, both ends included; an empty result is a rejection, so a
        success is never empty. */
    function GetReadingsByDateRange(startTime: Time, endTime: Time): (r: Result<seq<Reading>, QueryError>)
      reads this
      ensures r.Ok? ==> |r.value| > 0
      ensures r.Ok? ==> forall x :: x in r.value <==> x in rows && startTime <= x.time <= endTime
      ensures r.Ok? ==> forall x :: multiset(r.value)[x] == if startTime <= x.time <= endTime then multiset(rows)[x] else 0
      ensures r.Err? <==> forall x :: x in rows ==> !(startTime <= x.time <= endTime)
      ensures r.Err? ==> r.error == NoReadingsInRange
    {
      var found := Filter(rows, TakenBetween(startTime, endTime));
      if |found| > 0 then Ok(found)
      else Err(NoReadingsInRange)
    }
  }
}
