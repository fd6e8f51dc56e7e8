/// The route handlers of controllers/users.js. Each handler runs as one
/// step: the store calls it makes happen in order and its reply is the
/// status it ends with. bcrypt and the uuid generator come in as
/// parameters.
module UserHandlers {
  import opened Store
  import opened Api
  import opened Users

  /** The roles the auth middleware admits on POST /users, PUT /users/:id
      and DELETE /users/:id. Login, logout and get-by-key have no check. */
  const AdminOnly: set<Role> := {Admin}

  /** bcrypt as the handlers use it: `hash` is `hashSync(p, 10)` and
      `compare(plain, stored)` is `compareSync`. */
  datatype Bcrypt = Bcrypt(hash: string -> string, compare: (string, string) -> bool)

  /** What the handlers rely on from bcrypt: a password matches its own
      hash, and a hash never equals the password it was made from. */
  ghost predicate Sound(b: Bcrypt)
  {
    (forall p :: b.compare(p, b.hash(p))) && (forall p :: b.hash(p) != p)
  }

  /** The create and update handlers take a password starting with "$2a"
      to be hashed already. */
  predicate LooksHashed(password: string)
  {
    "$2a" <= password
  }

  /** The password the create and update handlers put in the user record:
      kept as given exactly when it starts with "$2a", hashed otherwise, so
      a plaintext password later passes the login check. */
  function StoredPassword(b: Bcrypt, password: string): (r: string)
    ensures r == password || r == b.hash(password)
    ensures Sound(b) ==> (r == password <==> LooksHashed(password))
    ensures Sound(b) && !LooksHashed(password) ==> b.compare(password, r)
  {
    if LooksHashed(password) then password else b.hash(password)
  }

  /** POST /users/login. An unknown email rejects in the lookup and so
      answers 500; a wrong password answers 400 and writes nothing; a right
      one gives the user a fresh key, writes it back (lastLogin as it was)
      and answers 200 with that key, which then resolves to this user. */
  method Login(users: UserCollection, b: Bcrypt, email: string, password: string, freshKey: string)
    returns (status: Status, authKey: Option<string>)
    requires users.Valid()
    requires forall u :: u in users.rows ==> u.authKey != Some(freshKey)
    modifies users
    ensures users.Valid()
    ensures old(users.GetByEmail(email)).Err? ==>
      status == ServerError && authKey == None && users.rows == old(users.rows)
    ensures old(users.GetByEmail(email)).Ok? && !b.compare(password, old(users.GetByEmail(email)).value.password) ==>
      status == BadRequest && authKey == None && users.rows == old(users.rows)
    ensures old(users.GetByEmail(email)).Ok? && b.compare(password, old(users.GetByEmail(email)).value.password) ==>
      var u := old(users.GetByEmail(email)).value;
      && status == OK
      && authKey == Some(freshKey)
      && |users.rows| == |old(users.rows)|
      && (forall i :: 0 <= i < |users.rows| ==>
            users.rows[i] == if old(users.rows)[i].id == u.id then u.(authKey := Some(freshKey)) else old(users.rows)[i])
      && users.GetByAuthKey(Some(freshKey)) == Ok(u.(authKey := Some(freshKey)))
      && GetUserByKey(users, freshKey) == Reply(OK, Some(u.(authKey := Some(freshKey))))
    ensures SessionsDistinct(old(users.rows)) ==> SessionsDistinct(users.rows)
  {
    var found := users.GetByEmail(email);
    if found.Err? {
      return ServerError, None;
    }
    var user := found.value;
    if !b.compare(password, user.password) {
      return BadRequest, None;
    }
    ghost var before := users.rows;
    ghost var k :| 0 <= k < |before| && before[k] == user;
    assert forall i :: 0 <= i < |before| && before[i].id == user.id ==> i == k by {
      forall i | 0 <= i < |before| && before[i].id == user.id ensures i == k {
        assert IdOf(before[i]) == IdOf(before[k]);
      }
    }
    var keyed := user.(authKey := Some(freshKey));
    var _ := users.Update(keyed);
    assert users.rows[k] == keyed;
    assert forall i :: 0 <= i < |users.rows| && users.rows[i].authKey == Some(freshKey) ==> i == k;
    status, authKey := OK, Some(freshKey);
  }

  /** POST /users/logout. The holder of the key loses it and the reply is
      200, after which the key resolves to no one; a key nobody holds
      answers 500. A missing key (null) finds a user already without one. */
  method Logout(users: UserCollection, key: Option<string>) returns (status: Status)
    requires users.Valid()
    modifies users
    ensures users.Valid()
    ensures old(users.GetByAuthKey(key)).Err? ==> status == ServerError && users.rows == old(users.rows)
    ensures old(users.GetByAuthKey(key)).Ok? ==>
      var u := old(users.GetByAuthKey(key)).value;
      && status == OK
      && |users.rows| == |old(users.rows)|
      && forall i :: 0 <= i < |users.rows| ==>
           users.rows[i] == if old(users.rows)[i].id == u.id then u.(authKey := None) else old(users.rows)[i]
    ensures status == OK && key.Some? && SessionsDistinct(old(users.rows)) ==>
      users.GetByAuthKey(key).Err? && GetUserByKey(users, key.value) == Reply(ServerError, None)
    ensures SessionsDistinct(old(users.rows)) ==> SessionsDistinct(users.rows)
  {
    var found := users.GetByAuthKey(key);
    if found.Err? {
      return ServerError;
    }
    var user := found.value;
    ghost var before := users.rows;
    ghost var k :| 0 <= k < |before| && before[k] == user;
    assert forall i :: 0 <= i < |before| && before[i].id == user.id ==> i == k by {
      forall i | 0 <= i < |before| && before[i].id == user.id ensures i == k {
        assert IdOf(before[i]) == IdOf(before[k]);
      }
    }
    var _ := users.Update(user.(authKey := None));
    status := OK;
  }

  /** GET /users/key/:authKey: 200 with the holder of the key; a key nobody
      holds rejects in the lookup and answers 500, never 404. */
  function GetUserByKey(users: UserCollection, key: string): (r: Reply<User>)
    reads users
    ensures r.status == OK <==> exists u :: u in users.rows && u.authKey == Some(key)
    ensures r.status == OK ==> r.body.Some? && r.body.value in users.rows && r.body.value.authKey == Some(key)
    ensures r.status != OK ==> r.status == ServerError && r.body.None?
  {
    match users.GetByAuthKey(Some(key))
    case Ok(u) => Reply(OK, Some(u))
    case Err(_) => Reply(ServerError, None)
  }

  /** POST /users (admin only). The new user is stored with its password
      hashed unless it already looks hashed, with no key and no lastLogin. */
  method CreateUser(users: UserCollection, b: Bcrypt, caller: Option<Role>,
                    studentNumber: int, email: string, password: string, role: Role, freshId: Id)
    returns (status: Status, insertedId: Option<Id>)
    requires users.Valid()
    requires forall v :: v in users.rows ==> v.id != freshId
    modifies users
    ensures users.Valid()
    ensures !Permits(AdminOnly, caller) ==>
      status == Denied && insertedId == None && users.rows == old(users.rows)
    ensures Permits(AdminOnly, caller) ==>
      && status == OK
      && insertedId == Some(freshId)
      && users.rows == old(users.rows) + [User(freshId, studentNumber, email, StoredPassword(b, password), role, None, None)]
    ensures status == OK && Sound(b) ==>
      var created := users.rows[|users.rows| - 1];
      && (created.password == password <==> LooksHashed(password))
      && (!LooksHashed(password) ==> b.compare(password, created.password))
    ensures SessionsDistinct(old(users.rows)) ==> SessionsDistinct(users.rows)
  {
    if !Permits(AdminOnly, caller) {
      return Denied, None;
    }
    var hashed := StoredPassword(b, password);
    var user := User(0, studentNumber, email, hashed, role, None, None);
    var id := users.Create(user, freshId);
    status, insertedId := OK, Some(id);
  }

  /** PUT /users/:id (admin only). An id that is not an ObjectId rejects
      (500). Otherwise the user with that id, if any, takes the given
      studentNumber, email and role and loses its key and lastLogin; the
      stored password never changes; the reply is 200 even when no user
      has that id. */
  method UpdateUser(users: UserCollection, b: Bcrypt, caller: Option<Role>, id: Option<Id>,
                    studentNumber: int, email: string, password: string, role: Role)
    returns (status: Status)
    requires users.Valid()
    modifies users
    ensures users.Valid()
    ensures !Permits(AdminOnly, caller) ==> status == Denied && users.rows == old(users.rows)
    ensures Permits(AdminOnly, caller) && id.None? ==> status == ServerError && users.rows == old(users.rows)
    ensures Permits(AdminOnly, caller) && id.Some? ==>
      && status == OK
      && |users.rows| == |old(users.rows)|
      && forall i :: 0 <= i < |users.rows| ==>
           users.rows[i] ==
             if old(users.rows)[i].id == id.value
             then old(users.rows)[i].(studentNumber := studentNumber, email := email, role := role,
                                      authKey := None, lastLogin := None)
             else old(users.rows)[i]
    ensures |users.rows| == |old(users.rows)|
    ensures forall i :: 0 <= i < |users.rows| ==> users.rows[i].password == old(users.rows)[i].password
    ensures SessionsDistinct(old(users.rows)) ==> SessionsDistinct(users.rows)
  {
    if !Permits(AdminOnly, caller) {
      return Denied;
    }
    var hashed := StoredPassword(b, password);
    if id.None? {
      return ServerError;
    }
    var user := User(id.value, studentNumber, email, hashed, role, None, None);
    var _ := users.Update(user);
    status := OK;
  }

  /** DELETE /users/:id (admin only): 200 exactly when one user was
      deleted, 404 when none was; an id that is not an ObjectId rejects
      (500). */
  method DeleteUser(users: UserCollection, caller: Option<Role>, id: Option<Id>) returns (status: Status)
    requires users.Valid()
    modifies users
    ensures users.Valid()
    ensures !Permits(AdminOnly, caller) ==> status == Denied && users.rows == old(users.rows)
    ensures Permits(AdminOnly, caller) && id.None? ==> status == ServerError && users.rows == old(users.rows)
    ensures Permits(AdminOnly, caller) && id.Some? ==>
      && (status == OK <==> exists v :: v in old(users.rows) && v.id == id.value)
      && (status != OK ==> status == NotFound)
      && (forall v :: v in users.rows <==> v in old(users.rows) && v.id != id.value)
      && (status == NotFound ==> users.rows == old(users.rows))
      && (status == OK ==>
            exists i :: 0 <= i < |old(users.rows)| && old(users.rows)[i].id == id.value &&
              users.rows == RemoveAt(old(users.rows), i))
  {
    if !Permits(AdminOnly, caller) {
      return Denied;
    }
    if id.None? {
      return ServerError;
    }
    var result := users.DeleteById(id.value);
    status := if result.deletedCount == 1 then OK else NotFound;
  }
}
