/// The route handlers of controllers/readings.js. The two GET handlers
/// are functions of the request and the collection; create and the
/// precipitation PATCH change the collection. Turning text into an
/// instant comes in as a parameter.
module ReadingHandlers {
  import opened Store
  import opened Api
  import opened Readings

  /** Roles the auth middleware admits: both GET routes, POST
      /reading/create and PATCH /reading/update/:id. */
  const ReadRoles: set<Role> := {Admin, Student}
  const CreateRoles: set<Role> := {Admin, Station}
  const UpdateRoles: set<Role> := {Admin}

  /** Text to instant: `decodeUri` is `decodeURIComponent` (None where it
      throws on a malformed escape) and `parseDate` is `new Date(text)`
      (None where the date is invalid). */
  datatype DateParsing = DateParsing(decodeUri: string -> Option<string>, parseDate: string -> Option<Time>)

  /** `new Date(req.query.x)`: a missing parameter is an invalid date. */
  function QueryInstant(dates: DateParsing, param: Option<string>): Option<Time>
  {
    if param.None? then None else dates.parseDate(param.value)
  }

  /** GET /readings/:deviceName/:time (admin, student). A malformed escape
      throws before the handler answers (500); an invalid date answers 400
      without a query; a matching reading answers 200 with it; no match
      rejects in the lookup and answers 500: the 404 branch is never
      taken. */
  function GetReading(store: ReadingCollection, dates: DateParsing, caller: Option<Role>,
                      deviceName: string, time: string): (r: Reply<Reading>)
    reads store
    ensures !Permits(ReadRoles, caller) ==> r == Reply(Denied, None)
    ensures Permits(ReadRoles, caller) && dates.decodeUri(time).None? ==> r == Reply(ServerError, None)
    ensures Permits(ReadRoles, caller) && dates.decodeUri(time).Some? &&
            dates.parseDate(dates.decodeUri(time).value).None? ==>
      r == Reply(BadRequest, None)
    ensures Permits(ReadRoles, caller) && dates.decodeUri(time).Some? &&
            dates.parseDate(dates.decodeUri(time).value).Some? ==>
      var t := dates.parseDate(dates.decodeUri(time).value).value;
      && (r.status == OK <==> exists x :: x in store.rows && x.deviceName == deviceName && x.time == t)
      && (r.status == OK ==>
            r.body.Some? && r.body.value in store.rows && r.body.value.deviceName == deviceName && r.body.value.time == t)
      && (r.status != OK ==> r == Reply(ServerError, None))
    ensures r.status != NotFound
  {
    if !Permits(ReadRoles, caller) then Reply(Denied, None)
    else match dates.decodeUri(time)
      case None => Reply(ServerError, None)
      case Some(text) =>
        match dates.parseDate(text)
        case None => Reply(BadRequest, None)
        case Some(t) =>
          match store.GetReadingByDateTime(deviceName, t)
          case Ok(reading) => Reply(OK, Some(reading))
          case Err(_) => Reply(ServerError, None)
  }

  /** The callbacks of the maxTemp handler: 200 with a non-empty list, 404
      with an empty one, 500 on a rejection. The query never resolves with
      an empty list, so the 404 arm is not reached from `MaxTemp`. */
  function RangeReply(found: Result<seq<Reading>, QueryError>): Reply<seq<Reading>>
  {
    match found
    case Ok(readings) => if |readings| > 0 then Reply(OK, Some(readings)) else Reply(NotFound, None)
    case Err(_) => Reply(ServerError, None)
  }

  /** GET /readings/maxTemp (admin, student). Either time invalid answers
      400; otherwise 200 with every reading in [startTime, endTime], both
      ends included and several per device alike (no reduction to a
      maximum); an empty range rejects in the query and answers 500, so the
      404 branch is never taken. */
  function MaxTemp(store: ReadingCollection, dates: DateParsing, caller: Option<Role>,
                   startTime: Option<string>, endTime: Option<string>): (r: Reply<seq<Reading>>)
    reads store
    ensures !Permits(ReadRoles, caller) ==> r == Reply(Denied, None)
    ensures Permits(ReadRoles, caller) &&
            (QueryInstant(dates, startTime).None? || QueryInstant(dates, endTime).None?) ==>
      r == Reply(BadRequest, None)
    ensures Permits(ReadRoles, caller) &&
            QueryInstant(dates, startTime).Some? && QueryInstant(dates, endTime).Some? ==>
      var s, e := QueryInstant(dates, startTime).value, QueryInstant(dates, endTime).value;
      && (r.status == OK <==> exists x :: x in store.rows && s <= x.time <= e)
      && (r.status == OK ==> r.body.Some? && forall x :: x in r.body.value <==> x in store.rows && s <= x.time <= e)
      && (r.status == OK ==> forall x :: multiset(r.body.value)[x] == if s <= x.time <= e then multiset(store.rows)[x] else 0)
      && (r.status != OK ==> r == Reply(ServerError, None))
    ensures r.status != NotFound
  {
    var start, end := QueryInstant(dates, startTime), QueryInstant(dates, endTime);
    if !Permits(ReadRoles, caller) then Reply(Denied, None)
    else if start.None? || end.None? then Reply(BadRequest, None)
    else
      RangeReply(store.GetReadingsByDateRange(start.value, end.value))
  }

  /** POST /reading/create (admin, station). The one reading built from
      the body is handed to `create`, which does not wait for the insert,
      so the reply is 200 whether or not the store took it. */
  method CreateReading(store: ReadingCollection, caller: Option<Role>, reading: Reading, freshId: Id, inserted: bool)
    returns (status: Status)
    requires store.Valid()
    requires forall x :: x in store.rows ==> x.id != freshId
    modifies store
    ensures store.Valid()
    ensures !Permits(CreateRoles, caller) ==> status == Denied && store.rows == old(store.rows)
    ensures Permits(CreateRoles, caller) ==>
      && status == OK
      && store.rows == old(store.rows) + (if inserted then [reading.(id := freshId)] else [])
  {
    if !Permits(CreateRoles, caller) {
      return Denied;
    }
    store.Create([reading], [freshId], inserted);
    status := OK;
  }

  /** PATCH /reading/update/:id (admin only). An id that is not an
      ObjectId rejects (500). Otherwise only the precipitation of the
      reading with that id changes, and the reply is 200 even when no
      reading has it: the update result is always an object, so the 404
      branch is never taken. */
  method UpdatePrecipitation(store: ReadingCollection, caller: Option<Role>, id: Option<Id>, precipitation: Measure)
    returns (status: Status)
    requires store.Valid()
    modifies store
    ensures store.Valid()
    ensures !Permits(UpdateRoles, caller) ==> status == Denied && store.rows == old(store.rows)
    ensures Permits(UpdateRoles, caller) && id.None? ==> status == ServerError && store.rows == old(store.rows)
    ensures Permits(UpdateRoles, caller) && id.Some? ==>
      && status == OK
      && |store.rows| == |old(store.rows)|
      && forall i :: 0 <= i < |store.rows| ==>
           store.rows[i] ==
             if old(store.rows)[i].id == id.value
             then old(store.rows)[i].(precipitation := precipitation)
             else old(store.rows)[i]
    ensures status != NotFound
  {
    if !Permits(UpdateRoles, caller) {
      return Denied;
    }
    if id.None? {
      return ServerError;
    }
    var result := store.Update(id.value, precipitation);
    status := OK;
  }
}
