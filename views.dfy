/** The request handlers of `src/api/users/views.py`. `Put` and `Post` check
    the schema first (what `expect(user, validate=True)` does before the
    handler body runs); every handler reaches the table only through the
    crud queries and `Store`'s crud methods. Each method here is proved to answer, and to leave the table, as `UserApi`
    says. */
module UserViews {
  import opened UserModel
  import opened UserCrud
  import opened UserApi

  /** The `/users/<id>` resource. */
  class Users {
    const store: Store

    constructor (store: Store)
      ensures this.store == store
    {
      this.store := store;
    }

    /** `Users.get`. */
    method Get(userId: nat) returns (resp: Response)
      ensures resp == GetOutcome(store.State(), userId)
    {
      var user := GetUserById(store.rows, userId);
      if user.None? {
        return Response(404, Message(NotFound(userId)));
      }
      return Response(200, Record(user.value));
    }

    /** `Users.put`. */
    method Put(userId: nat, payload: Payload) returns (resp: Response)
      requires store.Valid()
      modifies store
      ensures store.Valid()
      ensures Outcome(resp, store.State()) == PutOutcome(old(store.State()), userId, payload)
      ensures old(UniqueEmails(store.rows)) ==> UniqueEmails(store.rows)
    {
      if !ValidPayload(payload) {
        return Response(400, Message(ValidationFailed));
      }
      var username, email := UsernameOf(payload), EmailOf(payload);
      var user := GetUserById(store.rows, userId);
      if user.None? {
        return Response(404, Message(NotFound(userId)));
      }
      if GetUserByEmail(store.rows, email).Some? {
        return Response(400, Message(EmailExists));
      }
      PutPreservesInvariants(store.State(), userId, payload);
      var updated := store.UpdateUser(user.value, username, email);
      return Response(200, Message(Updated(updated.id)));
    }

    /** `Users.delete`. */
    method Delete(userId: nat) returns (resp: Response)
      requires store.Valid()
      modifies store
      ensures store.Valid()
      ensures Outcome(resp, store.State()) == DeleteOutcome(old(store.State()), userId)
      ensures old(UniqueEmails(store.rows)) ==> UniqueEmails(store.rows)
    {
      var user := GetUserById(store.rows, userId);
      if user.None? {
        return Response(404, Message(NotFound(userId)));
      }
      DeletePreservesInvariants(store.State(), userId);
      var _ := store.DeleteUser(user.value);
      return Response(200, Message(Removed(user.value.email)));
    }
  }

  /** The `/users` resource. */
  class UsersList {
    const store: Store

    constructor (store: Store)
      ensures this.store == store
    {
      this.store := store;
    }

    /** `UsersList.post`; `now` is the clock reading the new row is stamped with. */
    method Post(payload: Payload, now: Timestamp) returns (resp: Response)
      requires store.Valid()
      modifies store
      ensures store.Valid()
      ensures Outcome(resp, store.State()) == PostOutcome(old(store.State()), payload, now)
      ensures old(UniqueEmails(store.rows)) ==> UniqueEmails(store.rows)
    {
      if !ValidPayload(payload) {
        return Response(400, Message(ValidationFailed));
      }
      var username, email := UsernameOf(payload), EmailOf(payload);
      if GetUserByEmail(store.rows, email).Some? {
        return Response(400, Message(EmailExists));
      }
      PostPreservesInvariants(store.State(), payload, now);
      var _ := store.AddUser(username, email, now);
      return Response(201, Message(Added(email)));
    }

    /** `UsersList.get`: every row, in insertion order, with the table untouched. */
    method Get() returns (resp: Response)
      ensures resp == ListOutcome(store.State())
    {
      var users := store.GetAllUsers();
      return Response(200, Records(users));
    }
  }

  /** Two users posted through the handlers into a fresh table, then
      `GET /users`. */
  method PostTwiceThenList(now1: Timestamp, now2: Timestamp)
    returns (created1: Response, created2: Response, listed: Response)
    ensures created1 == Response(201, Message("jeffrey@testdriven.io was added!"))
    ensures created2 == Response(201, Message("fletcher@notreal.com was added!"))
    ensures listed == Response(200, Records([User(1, "jeffrey", "jeffrey@testdriven.io", now1),
                                             User(2, "fletcher", "fletcher@notreal.com", now2)]))
  {
    var store := new Store();
    var users := new UsersList(store);
    created1 := users.Post(Jeffrey, now1);
    created2 := users.Post(Fletcher, now2);
    listed := users.Get();
    ListInInsertionOrder(now1, now2);
  }
}
