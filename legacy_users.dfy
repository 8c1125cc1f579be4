/** The request handlers of `src/api/users.py`, the earlier copy of the views
    that runs its queries and its changes to the table inline instead of
    through the data-access layer. Every handler is proved to satisfy the
    same `UserApi` contract as its counterpart in `UserViews`, so one model
    covers both copies. */
module LegacyUsers {
  import opened UserModel
  import opened UserCrud
  import opened UserApi

  /** The `/users/<id>` resource. */
  class Users {
    const store: Store

    constructor (store: Store)
      ensures this.store == store
    {
      this.store := store;
    }

    /** `Users.get`, with `User.query.filter_by(id=...).first()` inline. */
    method Get(userId: nat) returns (resp: Response)
      ensures resp == GetOutcome(store.State(), userId)
    {
      var user := GetUserById(store.rows, userId);
      if user.None? {
        return Response(404, Message(NotFound(userId)));
      }
      return Response(200, Record(user.value));
    }

    /** `Users.put`: assigns the row's username and email itself and commits. */
    method Put(userId: nat, payload: Payload) returns (resp: Response)
      requires store.Valid()
      modifies store
      ensures store.Valid()
      ensures Outcome(resp, store.State()) == PutOutcome(old(store.State()), userId, payload)
      ensures old(UniqueEmails(store.rows)) ==> UniqueEmails(store.rows)
    {
      if !ValidPayload(payload) {
        return Response(400, Message(ValidationFailed));
      }
      var username, email := UsernameOf(payload), EmailOf(payload);
      var user := GetUserById(store.rows, userId);
      if user.None? {
        return Response(404, Message(NotFound(userId)));
      }
      if GetUserByEmail(store.rows, email).Some? {
        return Response(400, Message(EmailExists));
      }
      PutPreservesInvariants(store.State(), userId, payload);
      store.rows := UpdateRows(store.rows, user.value.id, username, email);
      return Response(200, Message(Updated(user.value.id)));
    }

    /** `Users.delete`: deletes the row itself and commits. */
    method Delete(userId: nat) returns (resp: Response)
      requires store.Valid()
      modifies store
      ensures store.Valid()
      ensures Outcome(resp, store.State()) == DeleteOutcome(old(store.State()), userId)
      ensures old(UniqueEmails(store.rows)) ==> UniqueEmails(store.rows)
    {
      var user := GetUserById(store.rows, userId);
      if user.None? {
        return Response(404, Message(NotFound(userId)));
      }
      DeletePreservesInvariants(store.State(), userId);
      store.rows := Remove(store.rows, user.value.id);
      return Response(200, Message(Removed(user.value.email)));
    }
  }

  /** The `/users` resource. */
  class UsersList {
    const store: Store

    constructor (store: Store)
      ensures this.store == store
    {
      this.store := store;
    }

    /** `UsersList.post`: builds the row and adds it to the session itself;
        the autoincrement supplies the id and `now` the creation date. */
    method Post(payload: Payload, now: Timestamp) returns (resp: Response)
      requires store.Valid()
      modifies store
      ensures store.Valid()
      ensures Outcome(resp, store.State()) == PostOutcome(old(store.State()), payload, now)
      ensures old(UniqueEmails(store.rows)) ==> UniqueEmails(store.rows)
    {
      if !ValidPayload(payload) {
        return Response(400, Message(ValidationFailed));
      }
      var username, email := UsernameOf(payload), EmailOf(payload);
      if GetUserByEmail(store.rows, email).Some? {
        return Response(400, Message(EmailExists));
      }
      PostPreservesInvariants(store.State(), payload, now);
      var user := User(store.nextId, username, email, now);
      store.rows := store.rows + [user];
      store.nextId := store.nextId + 1;
      return Response(201, Message(Added(email)));
    }

    /** `UsersList.get`: `User.query.all()`, with the table untouched. */
    method Get() returns (resp: Response)
      ensures resp == ListOutcome(store.State())
    {
      return Response(200, Records(store.rows));
    }
  }
}
