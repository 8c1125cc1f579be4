/** What a request to the user-record service does, as a function of the
    table before it: the status code and body it answers with, and the table
    after it, for each of the five handlers. The classes of `UserViews`, which
    model `src/api/users/views.py`, and those of `LegacyUsers`, which model
    its older copy `src/api/users.py`, are both proved to answer and to change
    the table exactly so. */
module UserApi {
  import opened UserModel
  import opened UserCrud

  // ---------------------------------------------------------------------
  // Requests and responses

  /** A JSON value as far as the schema check cares: a string or not. */
  datatype JsonValue = JString(text: string) | JNonString

  /** A request body: a JSON object with perhaps a `username` and perhaps an
      `email` key, or something other than an object. */
  datatype Payload =
    | NotAnObject
    | Object(username: Option<JsonValue>, email: Option<JsonValue>)

  datatype Body = Message(text: string) | Record(user: User) | Records(users: seq<User>)

  datatype Response = Response(status: nat, body: Body)

  /** The answer to a request, with the table it leaves behind. */
  datatype Outcome = Outcome(response: Response, db: Db)

  /** The `user` schema checked by `expect(user, validate=True)`: `username`
      and `email` are required and must be strings. */
  predicate ValidPayload(p: Payload)
    // a body is refused when it is no object, or lacks either key (`{}` and
    // `{"email": ...}` among them)
    ensures p.NotAnObject? ==> !ValidPayload(p)
    ensures p.Object? && (p.username.None? || p.email.None?) ==> !ValidPayload(p)
    // accepted are exactly the objects carrying a string under each key
    ensures ValidPayload(p) <==>
              exists u, e :: p == Object(Some(JString(u)), Some(JString(e)))
  {
    && p.Object?
    && p.username.Some? && p.username.value.JString?
    && p.email.Some? && p.email.value.JString?
  }

  function UsernameOf(p: Payload): string
    requires ValidPayload(p)
  {
    p.username.value.text
  }

  function EmailOf(p: Payload): string
    requires ValidPayload(p)
  {
    p.email.value.text
  }

  // ---------------------------------------------------------------------
  // Messages

  const ValidationFailed: string := "Input payload validation failed"
  const EmailExists: string := "Sorry. That email already exists."

  /** Python's `str` of a non-negative integer: its decimal digits. */
  function NatToString(n: nat): (s: string)
    ensures |s| > 0
    ensures forall i :: 0 <= i < |s| ==> '0' <= s[i] <= '9'
    ensures |s| > 1 ==> s[0] != '0'
  {
    var d := ['0' + (n % 10) as char];
    if n < 10 then d else NatToString(n / 10) + d
  }

  /** The number a string of decimal digits denotes. */
  function ParseNat(s: string): nat
    requires forall i :: 0 <= i < |s| ==> '0' <= s[i] <= '9'
  {
    if s == [] then 0 else 10 * ParseNat(s[..|s| - 1]) + (s[|s| - 1] - '0') as nat
  }

  /** The decimal text of an id gives the id back, so an id printed in a
      message identifies it. */
  lemma {:induction false} ParseNatToString(n: nat)
    ensures ParseNat(NatToString(n)) == n
  {
    var s := NatToString(n);
    if n >= 10 {
      assert s[..|s| - 1] == NatToString(n / 10);
      ParseNatToString(n / 10);
    } else {
      assert s[..|s| - 1] == [];
    }
  }

  /** `f"User {user_id} does not exist"`: the id can be read back from it. */
  function NotFound(id: nat): (s: string)
    ensures |s| == |NatToString(id)| + 20
    ensures s[..5] == "User " && s[|s| - 15..] == " does not exist"
    ensures s[5..|s| - 15] == NatToString(id)
    ensures ParseNat(s[5..|s| - 15]) == id
  {
    var s := "User " + NatToString(id) + " does not exist";
    assert s[5..|s| - 15] == NatToString(id);
    ParseNatToString(id);
    s
  }

  /** `f"{user.id} was updated!"`: the id can be read back from it. */
  function Updated(id: nat): (s: string)
    ensures |s| == |NatToString(id)| + 13
    ensures s[|s| - 13..] == " was updated!"
    ensures s[..|s| - 13] == NatToString(id)
    ensures ParseNat(s[..|s| - 13]) == id
  {
    var s := NatToString(id) + " was updated!";
    assert s[..|s| - 13] == NatToString(id);
    ParseNatToString(id);
    s
  }

  /** `f"{email} was added!"`: it starts with the email of the new row. */
  function Added(email: string): (s: string)
    ensures |s| == |email| + 11
    ensures s[..|email|] == email && s[|email|..] == " was added!"
  {
    email + " was added!"
  }

  /** `f"{user.email} was removed!"`: it starts with the removed row's email. */
  function Removed(email: string): (s: string)
    ensures |s| == |email| + 13
    ensures s[..|email|] == email && s[|email|..] == " was removed!"
  {
    email + " was removed!"
  }

  /** Two not-found messages are equal only for the same id. */
  lemma NotFoundNamesId(a: nat, b: nat)
    requires NotFound(a) == NotFound(b)
    ensures a == b
  {
    assert NotFound(a)[5..|NotFound(a)| - 15] == NotFound(b)[5..|NotFound(b)| - 15];
  }

  // ---------------------------------------------------------------------
  // The handlers

  /** `GET /users/<id>` (`Users.get`). */
  function GetOutcome(db: Db, id: nat): (r: Response)
    ensures r.status == 404 <==> !HasId(db.rows, id)
    ensures r.status == 404 ==> r.body == Message(NotFound(id))
    ensures r.status != 404 ==> r.status == 200 && r.body.Record? && r.body.user in db.rows && r.body.user.id == id
  {
    match GetUserById(db.rows, id)
    case None => Response(404, Message(NotFound(id)))
    case Some(user) => Response(200, Record(user))
  }

  /** `PUT /users/<id>` (`Users.put`): schema, then existence, then the
      duplicate check, which looks at every row including the target. */
  function PutOutcome(db: Db, id: nat, p: Payload): (r: Outcome)
    ensures !ValidPayload(p) ==> r == Outcome(Response(400, Message(ValidationFailed)), db)
    ensures ValidPayload(p) && !HasId(db.rows, id) ==> r == Outcome(Response(404, Message(NotFound(id))), db)
    ensures ValidPayload(p) && HasId(db.rows, id) && HasEmail(db.rows, EmailOf(p)) ==>
              r == Outcome(Response(400, Message(EmailExists)), db)
    ensures ValidPayload(p) && HasId(db.rows, id) && !HasEmail(db.rows, EmailOf(p)) ==>
              && r.response == Response(200, Message(Updated(id)))
              && r.db.nextId == db.nextId
              && |r.db.rows| == |db.rows|
              && forall k :: 0 <= k < |db.rows| ==>
                   r.db.rows[k] == if db.rows[k].id == id
                                   then db.rows[k].(username := UsernameOf(p), email := EmailOf(p))
                                   else db.rows[k]
  {
    if !ValidPayload(p) then Outcome(Response(400, Message(ValidationFailed)), db)
    else
      match GetUserById(db.rows, id)
      case None => Outcome(Response(404, Message(NotFound(id))), db)
      case Some(user) =>
        if GetUserByEmail(db.rows, EmailOf(p)).Some? then Outcome(Response(400, Message(EmailExists)), db)
        else
          var rows := UpdateRows(db.rows, user.id, UsernameOf(p), EmailOf(p));
          Outcome(Response(200, Message(Updated(user.id))), Db(rows, db.nextId))
  }

  /** `DELETE /users/<id>` (`Users.delete`). */
  function DeleteOutcome(db: Db, id: nat): (r: Outcome)
    ensures !HasId(db.rows, id) ==> r == Outcome(Response(404, Message(NotFound(id))), db)
    ensures HasId(db.rows, id) ==> r.db == Db(Remove(db.rows, id), db.nextId)
    ensures HasId(db.rows, id) ==>
              exists k :: 0 <= k < |db.rows| && db.rows[k].id == id && r.response == Response(200, Message(Removed(db.rows[k].email)))
  {
    match GetUserById(db.rows, id)
    case None => Outcome(Response(404, Message(NotFound(id))), db)
    case Some(user) => Outcome(Response(200, Message(Removed(user.email))), Db(Remove(db.rows, user.id), db.nextId))
  }

  /** `POST /users` (`UsersList.post`): schema, then the duplicate check, then
      one insert stamped with `now`. */
  function PostOutcome(db: Db, p: Payload, now: Timestamp): (r: Outcome)
    ensures !ValidPayload(p) ==> r == Outcome(Response(400, Message(ValidationFailed)), db)
    ensures ValidPayload(p) && HasEmail(db.rows, EmailOf(p)) ==> r == Outcome(Response(400, Message(EmailExists)), db)
    ensures ValidPayload(p) && !HasEmail(db.rows, EmailOf(p)) ==>
              && r.response == Response(201, Message(Added(EmailOf(p))))
              && r.db == Db(db.rows + [User(db.nextId, UsernameOf(p), EmailOf(p), now)], db.nextId + 1)
  {
    if !ValidPayload(p) then Outcome(Response(400, Message(ValidationFailed)), db)
    else if GetUserByEmail(db.rows, EmailOf(p)).Some? then Outcome(Response(400, Message(EmailExists)), db)
    else
      var user := User(db.nextId, UsernameOf(p), EmailOf(p), now);
      Outcome(Response(201, Message(Added(EmailOf(p)))), Db(db.rows + [user], db.nextId + 1))
  }

  /** `GET /users` (`UsersList.get`): every row, in insertion order; the
      table is left as it is. */
  function ListOutcome(db: Db): Response {
    Response(200, Records(db.rows))
  }

  // ---------------------------------------------------------------------
  // Properties of the handlers

  /** A request that is not answered with success leaves the table as it was. */
  lemma OnlySuccessChangesTable(db: Db, id: nat, p: Payload, now: Timestamp)
    ensures PutOutcome(db, id, p).response.status != 200 ==> PutOutcome(db, id, p).db == db
    ensures DeleteOutcome(db, id).response.status != 200 ==> DeleteOutcome(db, id).db == db
    ensures PostOutcome(db, p, now).response.status != 201 ==> PostOutcome(db, p, now).db == db
  {
    if HasId(db.rows, id) {
      var k :| 0 <= k < |db.rows| && db.rows[k].id == id && DeleteOutcome(db, id).response == Response(200, Message(Removed(db.rows[k].email)));
    }
  }

  /** Re-submitting a record's own email in a PUT is refused as a duplicate,
      because the duplicate check does not leave the target out. */
  lemma PutOwnEmailRejected(db: Db, k: nat, username: string)
    requires k < |db.rows|
    ensures PutOutcome(db, db.rows[k].id, Object(Some(JString(username)), Some(JString(db.rows[k].email))))
            == Outcome(Response(400, Message(EmailExists)), db)
  {
    var p := Object(Some(JString(username)), Some(JString(db.rows[k].email)));
    assert HasId(db.rows, db.rows[k].id) && HasEmail(db.rows, EmailOf(p));
  }

  /** POST keeps the primary-key rule and the email-uniqueness rule. */
  lemma PostPreservesInvariants(db: Db, p: Payload, now: Timestamp)
    requires WellFormed(db)
    ensures WellFormed(PostOutcome(db, p, now).db)
    ensures UniqueEmails(db.rows) ==> UniqueEmails(PostOutcome(db, p, now).db.rows)
  {
    var r := PostOutcome(db, p, now);
    if r.response.status == 201 {
      var t := db.rows;
      var t' := r.db.rows;
      assert |t'| == |t| + 1 && t'[|t|].id == db.nextId;
      assert forall k :: 0 <= k < |t| ==> t'[k] == t[k];
    }
  }

  /** PUT keeps the primary-key rule and the email-uniqueness rule. */
  lemma PutPreservesInvariants(db: Db, id: nat, p: Payload)
    requires WellFormed(db)
    ensures WellFormed(PutOutcome(db, id, p).db)
    ensures UniqueEmails(db.rows) ==> UniqueEmails(PutOutcome(db, id, p).db.rows)
  {
    if ValidPayload(p) {
      UpdateRowsPreserves(db.rows, id, UsernameOf(p), EmailOf(p), db.nextId);
    }
  }

  /** DELETE keeps the primary-key rule and the email-uniqueness rule. */
  lemma DeletePreservesInvariants(db: Db, id: nat)
    requires WellFormed(db)
    ensures WellFormed(DeleteOutcome(db, id).db)
    ensures UniqueEmails(db.rows) ==> UniqueEmails(DeleteOutcome(db, id).db.rows)
  {
    RemovePreserves(db.rows, id, db.nextId);
  }

  /** After a successful POST, a GET of the new id returns the new record and
      a GET of any other id answers as before. */
  lemma PostThenGet(db: Db, p: Payload, now: Timestamp)
    requires WellFormed(db)
    requires PostOutcome(db, p, now).response.status == 201
    ensures GetOutcome(PostOutcome(db, p, now).db, db.nextId)
            == Response(200, Record(User(db.nextId, UsernameOf(p), EmailOf(p), now)))
    ensures forall id :: id != db.nextId ==> GetOutcome(PostOutcome(db, p, now).db, id) == GetOutcome(db, id)
  {
    var u := User(db.nextId, UsernameOf(p), EmailOf(p), now);
    AppendedIsFound(db.rows, u);
    forall id | id != db.nextId ensures GetUserById(db.rows + [u], id) == GetUserById(db.rows, id) {
      AppendKeepsOtherLookups(db.rows, u, id);
    }
  }

  /** A POST repeated with the same body is refused as a duplicate and adds
      nothing. */
  lemma PostTwiceRejected(db: Db, p: Payload, now: Timestamp, later: Timestamp)
    requires PostOutcome(db, p, now).response.status == 201
    ensures PostOutcome(PostOutcome(db, p, now).db, p, later)
            == Outcome(Response(400, Message(EmailExists)), PostOutcome(db, p, now).db)
  {
    var t' := PostOutcome(db, p, now).db.rows;
    assert t'[|db.rows|].email == EmailOf(p);
  }

  /** After a successful PUT, a GET of the target returns it with the new
      username and email and its old id and creation date, and a GET of any
      other id answers as before. */
  lemma PutThenGet(db: Db, id: nat, p: Payload)
    requires WellFormed(db)
    requires PutOutcome(db, id, p).response.status == 200
    ensures GetOutcome(PutOutcome(db, id, p).db, id)
            == Response(200, Record(GetUserById(db.rows, id).value.(username := UsernameOf(p), email := EmailOf(p))))
    ensures forall j :: j != id ==> GetOutcome(PutOutcome(db, id, p).db, j) == GetOutcome(db, j)
  {
    UpdateRowsFindsTarget(db.rows, id, UsernameOf(p), EmailOf(p));
    forall j | j != id ensures GetUserById(PutOutcome(db, id, p).db.rows, j) == GetUserById(db.rows, j) {
      UpdateRowsKeepsOtherLookups(db.rows, id, UsernameOf(p), EmailOf(p), j);
    }
  }

  /** A successful DELETE takes out exactly the target row, after which a GET
      of its id is refused and a GET of any other id answers as before. */
  lemma DeleteThenGet(db: Db, id: nat)
    requires WellFormed(db) && HasId(db.rows, id)
    ensures exists k :: 0 <= k < |db.rows| && db.rows[k].id == id && DeleteOutcome(db, id).db.rows == db.rows[..k] + db.rows[k + 1..]
    ensures GetOutcome(DeleteOutcome(db, id).db, id).status == 404
    ensures forall j :: j != id ==> GetOutcome(DeleteOutcome(db, id).db, j) == GetOutcome(db, j)
  {
    var k :| 0 <= k < |db.rows| && db.rows[k].id == id;
    RemoveExactlyOne(db.rows, k);
    forall j ensures j != id ==> GetUserById(Remove(db.rows, id), j) == GetUserById(db.rows, j) {
      RemoveKeepsOtherLookups(db.rows, id, j);
    }
  }

  /** Two users posted into a fresh table keep their posting order. */
  lemma ListInInsertionOrder(now1: Timestamp, now2: Timestamp)
    ensures PostOutcome(EmptyDb, Jeffrey, now1).response == Response(201, Message("jeffrey@testdriven.io was added!"))
    ensures PostOutcome(PostOutcome(EmptyDb, Jeffrey, now1).db, Fletcher, now2).response
            == Response(201, Message("fletcher@notreal.com was added!"))
    ensures PostOutcome(PostOutcome(EmptyDb, Jeffrey, now1).db, Fletcher, now2).db.rows
            == [User(1, "jeffrey", "jeffrey@testdriven.io", now1), User(2, "fletcher", "fletcher@notreal.com", now2)]
    ensures ListOutcome(PostOutcome(PostOutcome(EmptyDb, Jeffrey, now1).db, Fletcher, now2).db)
            == Response(200, Records([User(1, "jeffrey", "jeffrey@testdriven.io", now1),
                                      User(2, "fletcher", "fletcher@notreal.com", now2)]))
  {
    var first := PostOutcome(EmptyDb, Jeffrey, now1);
    assert first.db == Db([User(1, "jeffrey", "jeffrey@testdriven.io", now1)], 2);
    assert Added("jeffrey@testdriven.io") == "jeffrey@testdriven.io was added!";
    assert Added("fletcher@notreal.com") == "fletcher@notreal.com was added!";
    assert !HasEmail(first.db.rows, "fletcher@notreal.com") by {
      assert first.db.rows[0].email == "jeffrey@testdriven.io";
      assert |"jeffrey@testdriven.io"| != |"fletcher@notreal.com"|;
    }
  }

  /** A later listing shows what a POST did: a created row comes last, and a
      refused POST leaves the listing as it was. */
  lemma PostThenList(db: Db, p: Payload, now: Timestamp)
    ensures PostOutcome(db, p, now).response.status != 201 ==>
              ListOutcome(PostOutcome(db, p, now).db) == ListOutcome(db)
    ensures ValidPayload(p) && PostOutcome(db, p, now).response.status == 201 ==>
              ListOutcome(PostOutcome(db, p, now).db)
              == Response(200, Records(db.rows + [User(db.nextId, UsernameOf(p), EmailOf(p), now)]))
  {
  }

  /** A later listing shows what a PUT did: only the target's username and
      email differ, and a refused PUT leaves the listing as it was. */
  lemma PutThenList(db: Db, id: nat, p: Payload)
    ensures PutOutcome(db, id, p).response.status != 200 ==>
              ListOutcome(PutOutcome(db, id, p).db) == ListOutcome(db)
    ensures ValidPayload(p) && PutOutcome(db, id, p).response.status == 200 ==>
              ListOutcome(PutOutcome(db, id, p).db)
              == Response(200, Records(UpdateRows(db.rows, id, UsernameOf(p), EmailOf(p))))
  {
    var o := PutOutcome(db, id, p);
    if ValidPayload(p) && o.response.status == 200 {
      assert o.db.rows == UpdateRows(db.rows, id, UsernameOf(p), EmailOf(p));
    }
  }

  /** A later listing shows what a DELETE did: the row is gone and the others
      keep their order; a refused DELETE leaves the listing as it was. */
  lemma DeleteThenList(db: Db, id: nat)
    ensures DeleteOutcome(db, id).response.status != 200 ==>
              ListOutcome(DeleteOutcome(db, id).db) == ListOutcome(db)
    ensures DeleteOutcome(db, id).response.status == 200 ==>
              ListOutcome(DeleteOutcome(db, id).db) == Response(200, Records(Remove(db.rows, id)))
  {
  }

  const Jeffrey: Payload := Object(Some(JString("jeffrey")), Some(JString("jeffrey@testdriven.io")))
  const Fletcher: Payload := Object(Some(JString("fletcher")), Some(JString("fletcher@notreal.com")))
}
