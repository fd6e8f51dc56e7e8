# WeatherAPI: users, readings and their handlers, in Dafny

This project models the core of a small REST backend for weather-station
readings and user accounts. Two document collections are modelled as
in-memory tables, each inside a class: `users` and `readings`. Both keep
their documents in natural (insertion) order, and `_id` is unique. Over
these tables sit the data-access functions of `models/user.js` and
`models/reading.js`. Above those sit the route handlers of
`controllers/users.js` and `controllers/readings.js`. Each handler is
modelled as one atomic step: it takes the request's inputs and the tables,
and gives back a reply status plus the new table state.

Modules, leaf to root:

- `Store` (store.dfy): `Option`, `Result`, ids and instants, and the
  driver's result records. It also holds the query semantics the models
  rely on. `FirstMatch` is `findOne`, the first match in natural order.
  `Filter` is `find().toArray()`. `UpdateWhere` is `updateMany` with
  `$set`. `RemoveAt` is `deleteOne`.
- `Api` (api.dfy): roles, reply statuses, and `Permits`. `Permits` is the
  auth middleware reduced to one check: is the caller's role on the
  route's list?
- `Users` (users.js model, users.dfy): the `User` record and the
  `UserCollection` class.
- `Readings` (reading.js model, readings.dfy): the `Reading` record and the
  `ReadingCollection` class.
- `UserHandlers` (user_handlers.dfy) and `ReadingHandlers`
  (reading_handlers.dfy): the handlers.
  - Handlers that change a table are methods.
  - The GET handlers are functions of the tables.

Replies are `OK`, `BadRequest`, `NotFound` and `ServerError`, which stand
for 200, 400, 404 and 500. `Denied` stands for the middleware's refusal.

The `User(...)` and `Reading(...)` factories are the datatype constructors
`Users.User` and `Readings.Reading`. Each field of the result is the
matching argument, in order: 7 fields for a user, 13 for a reading.

Behaviour the model makes explicit:

- Some lookups reject when nothing matches, and the `.catch` then answers
  500. This holds for login with an unknown email, logout with an unknown
  key, get-by-key, a missing reading, and an empty maxTemp range.
- The handlers' 404 branches for a missing reading and for an empty range
  are never taken.
- The precipitation PATCH always answers 200 once its id parses: an
  update result is always an object, so its 404 branch is dead too.
- PUT /users/:id answers 200 even when no user has the id.
- POST /reading/create always answers 200, because `create` neither awaits
  nor returns the insert.
- Logout with no `authKey` in the body looks up `{authKey: null}`. That
  filter matches a user who is already logged out, so the reply is 200.
- Login writes only `authKey`; it does not touch `lastLogin`. No handler
  ever sets `lastLogin`.
- No route calls `updateRole` or `deleteInactiveUsers`. Both are modelled
  at the collection level only.
- maxTemp computes no per-device maximum: it returns every reading in the
  range.
- PUT /users/:id builds its user with no `lastLogin` argument, so the
  field is `undefined`. The store driver, with its default settings,
  writes `undefined` in a `$set` as null. The model therefore clears
  `lastLogin`, along with `authKey`, on the updated user.

## Model

| member | source | states |
|---|---|---|
| Store.FirstMatch | models/user.js:36 | `findOne`: the index returned is the first one whose document matches; none is returned exactly when no document matches |
| Store.Filter | models/reading.js:69-77 | `find().toArray()`: a document is in the result iff it is stored and matches, with the same multiplicity; non-matching ones are dropped |
| Store.UpdateWhere | models/user.js:76-85 | `updateMany` with `$set`: matching documents are rewritten, all others are left as they were, and none moves |
| Store.RemoveAt | models/user.js:89 | `deleteOne`: the removed document is gone and the rest keep their order |
| Store.FilterPartition | models/user.js:93-98 | what `deleteMany` keeps and what it deletes add up to the whole collection, which makes `deletedCount` the number of matching documents |
| Store.FilterKeepsKeysDistinct | models/user.js:93-98 | after a `deleteMany`, `_id` is still unique |
| Store.RemoveAtKeepsKeysDistinct | models/user.js:88-90 | after a `deleteOne`, `_id` is still unique; exactly the documents with other ids remain |
| Users.UserCollection.GetByEmail | models/user.js:34-44 | returns the first stored user with that email; rejects, naming the email, iff no user has it |
| Users.UserCollection.GetByAuthKey | models/user.js:46-57 | returns the first user holding the key; rejects iff none does, with an error that carries no key |
| Users.UserCollection.Create | models/user.js:24-32 | appends exactly one record, under a new `_id`; every existing record stays; the ids stay unique |
| Users.UserCollection.Update | models/user.js:59-73 | the user with that id takes the new studentNumber, email, role, authKey and lastLogin; the password never changes; every other user is untouched; an unknown id changes nothing and matches 0 |
| Users.UserCollection.UpdateRole | models/user.js:75-86 | only the role changes, and only for users with start ≤ lastLogin ≤ end (both ends included); users without a lastLogin never match; `matchedCount` is the number of matches |
| Users.UserCollection.DeleteById | models/user.js:88-90 | removes the one user with that id, if there is one (deletedCount 1, else 0); every other user remains, in order; with no such user the table is unchanged |
| Users.UserCollection.DeleteInactiveUsers | models/user.js:92-99 | removes exactly the users whose lastLogin is at or before the cutoff; later logins and users never logged in survive, in their order; `deletedCount` is the number removed |
| Readings.ReadingCollection.Create | models/reading.js:36-39 | returns nothing; the batch is appended under new ids if the store takes it, and the table is unchanged otherwise |
| Readings.ReadingCollection.Update | models/reading.js:41-51 | only the precipitation of the reading with that id changes; all other measurements and readings stay; an unknown id changes nothing |
| Readings.ReadingCollection.GetReadingByDateTime | models/reading.js:53-65 | returns the first stored reading whose deviceName and time both equal the arguments; rejects iff there is none |
| Readings.ReadingCollection.GetReadingsByDateRange | models/reading.js:67-84 | succeeds with exactly the readings whose time is in [start, end] (both ends included, same multiplicity); never succeeds with an empty list; an empty match rejects |
| UserHandlers.StoredPassword | controllers/users.js:384-388 | for a sound bcrypt, the password is stored unchanged iff it starts with "$2a" and hashed otherwise; a hashed plaintext password then passes the login comparison |
| UserHandlers.Login | controllers/users.js:94-126 | unknown email answers 500; wrong password answers 400 with no write; right password answers 200 with a fresh key, which is written to that user only; lastLogin and the password stay; the key then resolves to the user |
| UserHandlers.Logout | controllers/users.js:186-202 | the key holder's authKey becomes null and the reply is 200, after which get-by-key with that key answers 500 (when no second user held the same key); an unknown key answers 500 with no write |
| UserHandlers.GetUserByKey | controllers/users.js:274-289 | answers 200 with a user holding the key iff one exists, otherwise 500; never 404 |
| UserHandlers.CreateUser | controllers/users.js:381-414 | admin only; appends one user with the hash-unless-"$2a" password, no authKey and no lastLogin; answers 200 |
| UserHandlers.UpdateUser | controllers/users.js:512-544 | admin only; an unparsable id answers 500; otherwise the user with that id takes the new studentNumber, email and role, and its authKey and lastLogin become null; the password is never written; the reply is 200 even when no user matched |
| UserHandlers.DeleteUser | controllers/users.js:611-632 | admin only; an unparsable id answers 500; otherwise the reply is 200 iff a user with that id existed, and then exactly that user's position is removed with the order kept; else 404 with the table unchanged |
| ReadingHandlers.GetReading | controllers/readings.js:153-184 | admin or student; a malformed escape answers 500; an invalid date answers 400; the reply is 200 with a matching reading iff one exists, else 500; never 404 |
| ReadingHandlers.MaxTemp | controllers/readings.js:334-364 | admin or student; either time invalid answers 400; the reply is 200 with exactly the readings in the inclusive range (no per-device reduction) iff there are any, else 500; never 404 |
| ReadingHandlers.CreateReading | controllers/readings.js:550-595 | admin or station; always answers 200; the reading is stored under a new id only if the un-awaited insert succeeds |
| ReadingHandlers.UpdatePrecipitation | controllers/readings.js:713-743 | admin only; an unparsable id answers 500; otherwise only the precipitation of the reading with that id changes, and the reply is 200 even with no match; never 404 |

## Left out

- server.js, the CORS list, the swagger comment blocks and `console.log`:
  wiring and documentation, with no decisions in them.
- middleware/auth.js is not part of this model. A caller is given as
  its resolved role (`Option<Role>`), and the middleware's check is role
  membership in the route's list. The status code of its refusal is not
  modelled (`Denied`).
- database/database.js is not part of this model. The store is the two
  in-memory tables. Storage failures, which would also end in 500 through
  the `.catch` handlers, are not modelled. The only failures modelled are
  lookup rejections and ids that do not parse.
- bcrypt is the parameter `Bcrypt(hash, compare)`:
  - the salt and cost are not modelled, so `hash` is a function;
  - the properties relied on (a password matches its own hash, and a hash
    is never its own input) are the premise `Sound`, not an axiom.
- Users.UserCollection.Create: the record stands for one whose `_id` is
  null, which is what its only caller (POST /users) builds; the store then
  assigns the new `_id` `freshId`. A record arriving with a non-null `_id`
  (stored under that `_id`, or rejected when it is taken) is not modelled.
  The `delete user.id` in `create` removes nothing, because the record has
  `_id` and no `id` key.
- Readings.ReadingCollection.Create: likewise, each reading stands for one
  whose `_id` is null, as POST /reading/create builds it, and takes its
  new `_id` from `ids`.
- uuid generation and the store's new `_id`s are parameters (`freshKey`,
  `freshId`, `ids`), assumed not yet in use.
- `new ObjectId(id)` on a path id becomes `Option<Id>`. `None` is an id
  that does not parse, which makes the update or delete reject (500).
- `new Date(...)` and `decodeURIComponent` are the parameter
  `DateParsing`, and instants are integers. POST /reading/create stores
  the body's `time` as received; the model takes it to be an instant
  already. `Users.UserCollection.UpdateRole` also takes its bounds as
  instants: the `new Date(startDate)` and `new Date(endDate)` inside
  `updateRole` are not routed through `DateParsing`, since no handler
  calls it.
- Measurements are opaque `real`s. `parseFloat` and NaN are not modelled.
- Promise timing is not modelled: each handler is one atomic step. This
  also drops the unhandled rejections of the nested `Users.update` calls
  in login and logout.
- Request bodies are assumed to have their fields. The model does not
  cover a missing `password` (where `startsWith` or `compareSync` would
  throw), nor a missing email. The exceptions are logout's `authKey` and
  maxTemp's query times, whose absence is modelled.
- Roles are the enumeration student, admin and station. The source stores
  whatever role string the body carries.
- POST /reading/create hands one reading object to a bulk insert that
  expects a list. Whether the store accepts it is the `inserted`
  parameter.
- The response bodies' extra fields (messages, the driver result objects
  echoed back) are not modelled beyond the reply's payload.
