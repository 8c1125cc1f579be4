# User-record service, modelled in Dafny

This project models the user-record service of a small Flask application.
The service keeps one table of `User` rows, each with an `id`, a `username`,
an `email` and a `created_date`. It has two layers:

- **Data access** (`src/api/users/crud.py`): list every row, look one up by
  id, look one up by email, add a row, update one, delete one.
- **Request handlers** (`src/api/users/views.py`): `GET`, `PUT` and `DELETE`
  on `/users/<id>`, and `POST` and `GET` on `/users`. `PUT` and `POST` check
  the request body against the `user` schema. `PUT` and `DELETE` check that
  the target row exists. `PUT` and `POST` enforce the rule that no two rows
  share an email. Only then does a handler change the table. Each answers
  with a status code and a message or the rows.

`src/api/users.py` is an older copy of the same handlers with the queries and
changes written inline. It is modelled too. The Dafny classes
`UserViews.Users` and `UserViews.UsersList`, which model the views, and
`LegacyUsers.Users` and `LegacyUsers.UsersList`, which model the older copy,
are all proved to meet the same `UserApi` outcome functions, one for each of
the five handlers.

## Layout

- `user_model.dfy` (`UserModel`): the `User` row; `Db`, the table as its rows
  in insertion order plus the next id the autoincrement will give out; and
  the table predicates. `DistinctIds` is the primary-key rule. `IdsBelow`
  says the next id is unused. `UniqueEmails` is the business rule.
- `crud.py` → `crud.dfy` (`UserCrud`). The three queries are functions of the
  rows. `UpdateRows` and `Remove` are pure functions that say what the table
  becomes. The class `Store` stands for the shared database session. It has
  the fields `rows` and `nextId`. Its methods `AddUser`, `UpdateUser` and
  `DeleteUser` change those fields in place; `GetAllUsers` only reads them.
- `api.dfy` (`UserApi`): the shared meaning of a request. It defines the
  payload and response datatypes, the exact message strings, and the schema
  rule `ValidPayload`. `GetOutcome`, `PutOutcome`, `DeleteOutcome`,
  `PostOutcome` and `ListOutcome` give, for a table and a request, the
  response and (for the three that change it) the table afterwards. The lemmas prove what the handlers promise. Success is the only
  path that changes the table. Both table rules are preserved. A later `GET`
  sees what a `PUT`, `POST` or `DELETE` did, and so does a later listing.
- `views.py` → `views.dfy` (`UserViews`): classes `Users` and `UsersList`.
  Their methods go through the crud queries and `Store`'s crud methods. Each method ensures that
  its response and the new table are exactly what `UserApi` prescribes.
- `users.py` → `legacy_users.dfy` (`LegacyUsers`): the same two classes. Here
  the methods assign `store.rows` and `store.nextId` directly, as the inline
  `db.session` code does. They carry the same ensures as `UserViews`.

The handlers check things in a fixed order: first the schema, then whether
the row exists, then the duplicate email, and only then any change. On
`PUT` the duplicate check looks for *any* row with the requested email,
including the target row itself. So re-submitting a row's own email is
refused with 400 "Sorry. That email already exists." The model keeps this
behaviour on purpose, and `PutOwnEmailRejected` states it. One might expect
the check to leave the target row out; the code does not, and the model
follows the code.

## Model

| member | source | states |
|---|---|---|
| UserCrud.GetUserById | src/api/users/crud.py:9-10 | returns a row of the table whose id is the argument; returns none exactly when no row has that id |
| UserCrud.GetUserByEmail | src/api/users/crud.py:13-14 | returns a row of the table whose email is the argument; returns none exactly when no row has that email |
| UserCrud.GetUserByIdUnique | src/api/users/crud.py:9-10 | under the primary-key rule, a lookup of any row's id returns that very row |
| UserCrud.GetUserByEmailUnique | src/api/users/crud.py:13-14 | under the email-uniqueness rule, a lookup of any row's email returns that very row |
| UserCrud.UpdateRows | src/api/users/crud.py:24-28 | same number of rows; a row with the target id gets the new username and email and keeps its id and created_date; every other row is unchanged |
| UserCrud.UpdateRowsPreserves | src/api/users/crud.py:24-28 | an update keeps the primary-key rule and the freshness of the next id; it keeps emails unique when the new email was in no row |
| UserCrud.UpdateRowsFindsTarget | src/api/users/crud.py:24-28 | under the primary-key rule, after an update a lookup of the target id returns the old row with only username and email replaced |
| UserCrud.UpdateRowsKeepsOtherLookups | src/api/users/crud.py:24-28 | after an update, a lookup of any other id returns what it returned before |
| UserCrud.Remove | src/api/users/crud.py:31-34 | a row remains exactly when it was in the table and has a different id; the table does not grow |
| UserCrud.RemoveAbsent | src/api/users/crud.py:31-34 | deleting an id no row holds leaves the table as it was |
| UserCrud.RemoveExactlyOne | src/api/users/crud.py:31-34 | under the primary-key rule, deleting row k's id takes out exactly row k and keeps the other rows in order |
| UserCrud.RemovePreserves | src/api/users/crud.py:31-34 | a deletion keeps the primary-key rule, the freshness of the next id and the uniqueness of emails |
| UserCrud.RemoveKeepsOtherLookups | src/api/users/crud.py:31-34 | after a deletion, a lookup of the deleted id finds nothing and a lookup of any other id finds what it found before |
| UserCrud.AppendedIsFound | src/api/users/crud.py:17-21 | a row appended under an id no row holds is what a lookup by that id returns |
| UserCrud.AppendKeepsOtherLookups | src/api/users/crud.py:17-21 | appending a row leaves the lookup of every other id unchanged |
| UserCrud.Store.GetAllUsers | src/api/users/crud.py:5-6 | returns the whole table, in insertion order, and changes nothing |
| UserCrud.Store.AddUser | src/api/users/crud.py:17-21 | appends exactly one row carrying the next id, the given username and email and the clock's time, and returns it; earlier rows are untouched; the id was unused; a lookup by it now finds the row |
| UserCrud.Store.UpdateUser | src/api/users/crud.py:24-28 | the table becomes UpdateRows of the old one for that row's id; returns the row with only username and email replaced; a lookup by its id now finds it; the next id is unchanged |
| UserCrud.Store.DeleteUser | src/api/users/crud.py:31-34 | takes out exactly that row, keeping the others in order, and returns it; a lookup of its id now finds nothing |
| UserApi.ValidPayload | src/api/users/views.py:11-19 | the `user` schema as `validate=True` applies it: a body that is no object, or lacks `username` or `email`, is refused; accepted are exactly the objects with a string under both keys |
| UserApi.NatToString | src/api/users/views.py:28 | the text an id is formatted into: non-empty, decimal digits only, no leading zero unless it is the single digit 0; with `ParseNatToString` it is exactly Python's `str` of the id |
| UserApi.NotFound | src/api/users/views.py:28 | "User " then the id's digits then " does not exist"; reading the digits back gives the id |
| UserApi.Updated | src/api/users/views.py:48 | the id's digits then " was updated!"; reading the digits back gives the id |
| UserApi.Added | src/api/users/views.py:78 | the posted email followed by " was added!" |
| UserApi.Removed | src/api/users/views.py:60 | the removed row's email followed by " was removed!" |
| UserApi.ParseNatToString | src/api/users/views.py:28 | reading the decimal text of an id gives back the id |
| UserApi.NotFoundNamesId | src/api/users/views.py:28 | two "User {id} does not exist" messages are equal only for equal ids |
| UserApi.GetOutcome | src/api/users/views.py:22-29 | 404 "User {id} does not exist" exactly when no row has the id; otherwise 200 with a row of the table that has that id |
| UserApi.PutOutcome | src/api/users/views.py:31-49 | a body failing the `user` schema (lines 11-19) gets 400 "Input payload validation failed" and the table is unchanged, whatever the id. Otherwise an absent id gets 404 whatever the email. Otherwise an email held by any row, the target included, gets 400 "Sorry. That email already exists." and the table is unchanged. Otherwise the answer is 200 "{id} was updated!", only the target's username and email change, and the next id stays |
| UserApi.DeleteOutcome | src/api/users/views.py:51-61 | an absent id gets 404 and the table is unchanged; otherwise the row is removed and the answer is 200 "{email} was removed!" with the removed row's email |
| UserApi.PostOutcome | src/api/users/views.py:64-79 | a body failing the schema gets 400 "Input payload validation failed"; an email already present gets 400 "Sorry. That email already exists."; in both cases the table is unchanged. Otherwise one row is appended under the next id and the answer is 201 "{email} was added!" |
| UserApi.OnlySuccessChangesTable | src/api/users/views.py:39-79 | every PUT, DELETE or POST whose status is not its success status leaves the table exactly as it was |
| UserApi.PutOwnEmailRejected | src/api/users/views.py:43-45 | a PUT that re-submits the target row's own email is refused with 400 "Sorry. That email already exists." and the table is unchanged |
| UserApi.PostPreservesInvariants | src/api/users/views.py:72-77 | POST keeps the primary-key rule, keeps the next id fresh, and keeps emails unique |
| UserApi.PutPreservesInvariants | src/api/users/views.py:43-47 | PUT keeps the primary-key rule, keeps the next id fresh, and keeps emails unique |
| UserApi.DeletePreservesInvariants | src/api/users/views.py:55-59 | DELETE keeps the primary-key rule, keeps the next id fresh, and keeps emails unique |
| UserApi.PostThenGet | src/api/users/views.py:72-79 | after a successful POST, a GET of the new id returns 200 with the posted username and email; GETs of other ids answer as before |
| UserApi.PostTwiceRejected | tests/test_users.py:36-44 | repeating a successful POST with the same body gets 400 "Sorry. That email already exists." and adds nothing |
| UserApi.PutThenGet | src/api/users/views.py:47-49 | after a successful PUT, a GET of the target returns it with the new username and email and its old id and created_date; GETs of other ids answer as before |
| UserApi.DeleteThenGet | src/api/users/views.py:55-61 | a DELETE of a present id takes out exactly that row, keeping the others in order; afterwards a GET of the id gets 404 and GETs of other ids answer as before |
| UserApi.ListInInsertionOrder | src/api/users/views.py:64-85 | posting jeffrey then fletcher into an empty table gets two 201 answers and leaves exactly those two rows, in that order, with ids 1 and 2, which is then what the listing answers |
| UserApi.PostThenList | src/api/users/views.py:64-85 | after a 201 POST the listing is the old rows with the new row appended last; after a refused POST it is as before |
| UserApi.PutThenList | src/api/users/views.py:31-49 | after a 200 PUT the listing is the old rows with only the target's username and email replaced; after a refused PUT it is as before |
| UserApi.DeleteThenList | src/api/users/views.py:51-61 | after a 200 DELETE the listing is the old rows without the deleted id, in order; after a refused DELETE it is as before |
| UserViews.Users.Get | src/api/users/views.py:22-29 | answers as GetOutcome of the current table, changing nothing |
| UserViews.Users.Put | src/api/users/views.py:31-49 | answer and new table are PutOutcome of the old table; the store's own invariant and email uniqueness are kept |
| UserViews.Users.Delete | src/api/users/views.py:51-61 | answer and new table are DeleteOutcome of the old table; the store's own invariant and email uniqueness are kept |
| UserViews.UsersList.Post | src/api/users/views.py:64-79 | answer and new table are PostOutcome of the old table; the store's own invariant and email uniqueness are kept |
| UserViews.UsersList.Get | src/api/users/views.py:81-85 | answers as ListOutcome of the current table, 200 with every row in insertion order, changing nothing |
| UserViews.PostTwiceThenList | src/api/users/views.py:64-85 | on a fresh store, posting jeffrey then fletcher through the handlers answers 201 "{email} was added!" twice, and `GET /users` then answers 200 with exactly those two rows, ids 1 and 2, in that order |
| LegacyUsers.Users.Get | src/api/users.py:22-29 | the same contract as UserViews.Users.Get |
| LegacyUsers.Users.Put | src/api/users.py:31-52 | the same contract as UserViews.Users.Put, with the row rewritten inline |
| LegacyUsers.Users.Delete | src/api/users.py:54-66 | the same contract as UserViews.Users.Delete, with the row deleted inline |
| LegacyUsers.UsersList.Post | src/api/users.py:69-87 | the same contract as UserViews.UsersList.Post, with the row built and added inline |
| LegacyUsers.UsersList.Get | src/api/users.py:89-92 | the same contract as UserViews.UsersList.Get, with `User.query.all()` inline |

## Left out

- Flask and flask-restx: routing, the `<int:user_id>` converter, `marshal_with`, JSON parsing and what `api.abort` adds. A path id is a `nat`, so non-numeric paths are not modelled. A request body is a `Payload`. A response is a status code with a body datatype, a 404 body is the message the handler passes to `api.abort` with nothing added, and a 400 schema failure carries only the message "Input payload validation failed", without the `errors` object flask-restx adds to it.
- The `user` schema is modelled only as "`username` and `email` are present and are strings". The schema's checks on `id` and `created_date`, when a client sends them, are not modelled.
- SQLAlchemy sessions: `add`, `delete`, `commit`, transactions and faults at commit. The table is an in-memory value, and every change commits at once and cannot fail. The source handles no failure path either.
- `created_date`: it comes from the clock. It is the `now` parameter of `AddUser` and `Post`, and update never writes it. Its serialisation is left out.
- Id generation: the autoincrement is a counter, `nextId`, that starts at 1 and never reuses an id. The model file `src/api/users/models.py` is not part of this model.
- Row order: SQL gives no order without `ORDER BY`. The model takes insertion order for `get_all_users` and for which row `.first()` returns. Under the primary-key rule and the email-uniqueness rule, at most one row can match a lookup anyway.
- Object identity: crud's update and delete take the Python object fetched from the session. The model passes the row's value, and requires that value to be in the table. No other alias of the object is modelled.
- Concurrent requests: each request is modelled as running alone against the table, so the race between the duplicate-email check and the insert or update is not represented.
- `src/__init__.py`: the `Ping` resource returns a constant, and the application configuration is read from the environment.
