/// The `users` collection and the data-access functions over it
/// (models/user.js). The collection is a table of user documents in
/// natural (insertion) order; `_id` is unique, as the store's primary
/// index guarantees.
module Users {
  import opened Store
  import opened Api

  /** A user document. The datatype's constructor is the `User(...)`
      factory: its seven fields are its seven arguments, in order. */
  datatype User = User(
    id: Id,
    studentNumber: int,
    email: string,
    password: string,
    role: Role,
    authKey: Option<string>,
    lastLogin: Option<Time>)

  /** Why a lookup rejects. The key-lookup error deliberately carries no key. */
  datatype LookupError = UserNotFoundWithEmail(email: string) | UserNotFound

  function IdOf(u: User): Id { u.id }

  function HasId(id: Id): User -> bool { (u: User) => u.id == id }

  function HasEmail(email: string): User -> bool { (u: User) => u.email == email }

  /** The filter `{authKey: key}`; a null key matches the users without one. */
  function HoldsKey(key: Option<string>): User -> bool { (u: User) => u.authKey == key }

  /** The filter `{lastLogin: {$gte: start, $lte: end}}`: a missing
      lastLogin is not a date and satisfies neither bound. */
  function LoggedInBetween(start: Time, end: Time): User -> bool
  {
    (u: User) => u.lastLogin.Some? && start <= u.lastLogin.value <= end
  }

  /** The filter `{lastLogin: {$lte: cutoff}}`. */
  function LoggedInNoLaterThan(cutoff: Time): User -> bool
  {
    (u: User) => u.lastLogin.Some? && u.lastLogin.value <= cutoff
  }

  /** The `$set` of `update`: five fields come from `u`; `_id` and the
      stored password stay. */
  function SetFields(stored: User, u: User): User
  {
    stored.(studentNumber := u.studentNumber, email := u.email, role := u.role,
            authKey := u.authKey, lastLogin := u.lastLogin)
  }

  /** At most one user holds any given session key. */
  ghost predicate SessionsDistinct(rows: seq<User>)
  {
    forall i, j ::
      0 <= i < |rows| && 0 <= j < |rows| && rows[i].authKey.Some? && rows[i].authKey == rows[j].authKey
      ==> i == j
  }

  class UserCollection {
    var rows: seq<User>

    ghost predicate Valid()
      reads this
    {
      KeysDistinct(rows, IdOf)
    }

    constructor ()
      ensures Valid() && rows == []
    {
      rows := [];
    }

    /** `getByEmail`: the first user with that email, or a rejection that
        names the email. */
    function GetByEmail(email: string): (r: Result<User, LookupError>)
      reads this
      ensures r.Ok? ==> r.value.email == email && r.value in rows
      ensures r.Ok? ==>
        exists i :: 0 <= i < |rows| && rows[i] == r.value && forall j :: 0 <= j < i ==> rows[j].email != email
      ensures r.Err? <==> forall u :: u in rows ==> u.email != email
      ensures r.Err? ==> r.error == UserNotFoundWithEmail(email)
    {
      match FirstMatch(rows, HasEmail(email))
      case Some(i) => Ok(rows[i])
      case None => Err(UserNotFoundWithEmail(email))
    }

    /** `getByAuthKey`: the first user holding that key, or a rejection
        that does not repeat the key. */
    function GetByAuthKey(key: Option<string>): (r: Result<User, LookupError>)
      reads this
      ensures r.Ok? ==> r.value.authKey == key && r.value in rows
      ensures r.Ok? ==>
        exists i :: 0 <= i < |rows| && rows[i] == r.value && forall j :: 0 <= j < i ==> rows[j].authKey != key
      ensures r.Err? <==> forall u :: u in rows ==> u.authKey != key
      ensures r.Err? ==> r.error == UserNotFound
    {
      match FirstMatch(rows, HoldsKey(key))
      case Some(i) => Ok(rows[i])
      case None => Err(UserNotFound)
    }

    /** `create`: `insertOne` stores the user at the end of the collection;
        nothing already stored changes. The record stands for one whose
        `_id` is null, as its only caller builds it, so the store gives it
        the new `_id` `freshId`. */
    method Create(u: User, freshId: Id) returns (insertedId: Id)
      requires Valid()
      requires forall v :: v in rows ==> v.id != freshId
      modifies this
      ensures Valid()
      ensures insertedId == freshId
      ensures rows == old(rows) + [u.(id := freshId)]
      ensures SessionsDistinct(old(rows)) && (u.authKey.None? || forall v :: v in old(rows) ==> v.authKey != u.authKey)
        ==> SessionsDistinct(rows)
    {
      rows := rows + [u.(id := freshId)];
      insertedId := freshId;
    }

    /** `update`: `updateOne({_id}, {$set: ...})`. The user with `u`'s id, if
        any, takes `u`'s studentNumber, email, role, authKey and lastLogin;
        its password and every other user stay as they were. */
    method Update(u: User) returns (res: UpdateResult)
      requires Valid()
      modifies this
      ensures Valid()
      ensures |rows| == |old(rows)|
      ensures forall i :: 0 <= i < |rows| ==>
        rows[i] == if old(rows)[i].id == u.id then SetFields(old(rows)[i], u) else old(rows)[i]
      ensures forall i :: 0 <= i < |rows| ==>
        rows[i].id == old(rows)[i].id && rows[i].password == old(rows)[i].password
      ensures res.matchedCount == if exists v :: v in old(rows) && v.id == u.id then 1 else 0
      ensures res.matchedCount == 0 ==> rows == old(rows)
    {
      match FirstMatch(rows, HasId(u.id)) {
        case None =>
          res := UpdateResult(0);
        case Some(i) =>
          rows := rows[i := SetFields(rows[i], u)];
          res := UpdateResult(1);
      }
    }

    /** `updateRole`: `updateMany` sets the role of exactly the users whose
        lastLogin lies in [startDate, endDate], both ends included. */
    method UpdateRole(startDate: Time, endDate: Time, role: Role) returns (res: UpdateResult)
      requires Valid()
      modifies this
      ensures Valid()
      ensures |rows| == |old(rows)|
      ensures forall i :: 0 <= i < |rows| ==>
        rows[i] == if LoggedInBetween(startDate, endDate)(old(rows)[i]) then old(rows)[i].(role := role) else old(rows)[i]
      ensures res.matchedCount == |Filter(old(rows), LoggedInBetween(startDate, endDate))|
    {
      var matched := |Filter(rows, LoggedInBetween(startDate, endDate))|;
      rows := UpdateWhere(rows, LoggedInBetween(startDate, endDate), (v: User) => v.(role := role));
      res := UpdateResult(matched);
    }

    /** `deleteById`: `deleteOne({_id})` removes the user with that id, if
        any; every other user remains. */
    method DeleteById(id: Id) returns (res: DeleteResult)
      requires Valid()
      modifies this
      ensures Valid()
      ensures res.deletedCount == if exists v :: v in old(rows) && v.id == id then 1 else 0
      ensures |rows| == |old(rows)| - res.deletedCount
      ensures forall v :: v in rows <==> v in old(rows) && v.id != id
      ensures res.deletedCount == 0 ==> rows == old(rows)
      ensures res.deletedCount == 1 ==>
        exists i :: 0 <= i < |old(rows)| && old(rows)[i].id == id && rows == RemoveAt(old(rows), i)
    {
      match FirstMatch(rows, HasId(id)) {
        case None =>
          res := DeleteResult(0);
        case Some(i) =>
          RemoveAtKeepsKeysDistinct(rows, i, IdOf);
          rows := RemoveAt(rows, i);
          res := DeleteResult(1);
      }
    }

    /** `deleteInactiveUsers`: `deleteMany` removes exactly the users whose
        lastLogin is at or before the cutoff; users never logged in stay. */
    method DeleteInactiveUsers(cutoff: Time) returns (res: DeleteResult)
      requires Valid()
      modifies this
      ensures Valid()
      ensures rows == Filter(old(rows), Not(LoggedInNoLaterThan(cutoff)))
      ensures forall v :: v in rows <==> v in old(rows) && !(v.lastLogin.Some? && v.lastLogin.value <= cutoff)
      ensures forall v :: v in old(rows) && v.lastLogin.None? ==> v in rows
      ensures res.deletedCount == |Filter(old(rows), LoggedInNoLaterThan(cutoff))|
      ensures |rows| == |old(rows)| - res.deletedCount
    {
      FilterPartition(rows, LoggedInNoLaterThan(cutoff));
      FilterKeepsKeysDistinct(rows, Not(LoggedInNoLaterThan(cutoff)), IdOf);
      var kept := Filter(rows, Not(LoggedInNoLaterThan(cutoff)));
      res := DeleteResult(|rows| - |kept|);
      rows := kept;
    }
  }
}
