/** The data-access layer (`src/api/users/crud.py`): three queries over the
    table and three operations that change it. The queries are functions of
    the rows; the changes are methods of `Store`, which stands for the shared
    database session. */
module UserCrud {
  import opened UserModel

  /** `User.query.filter_by(id=id).first()`: the first row, in table order,
      whose id is `id`, or none. */
  function GetUserById(t: seq<User>, id: nat): (r: Option<User>)
    ensures r.Some? ==> r.value in t && r.value.id == id
    ensures r.None? <==> !HasId(t, id)
  {
    if t == [] then None
    else if t[0].id == id then Some(t[0])
    else
      assert forall k :: 1 <= k < |t| ==> t[k] == t[1..][k - 1];
      GetUserById(t[1..], id)
  }

  /** `User.query.filter_by(email=email).first()`: the first row, in table
      order, whose email is `email`, or none. */
  function GetUserByEmail(t: seq<User>, email: string): (r: Option<User>)
    ensures r.Some? ==> r.value in t && r.value.email == email
    ensures r.None? <==> !HasEmail(t, email)
  {
    if t == [] then None
    else if t[0].email == email then Some(t[0])
    else
      assert forall k :: 1 <= k < |t| ==> t[k] == t[1..][k - 1];
      GetUserByEmail(t[1..], email)
  }

  /** The table after the record with key `id` has had its username and email
      overwritten: every other field of it, and every other row, stays. */
  function UpdateRows(t: seq<User>, id: nat, username: string, email: string): (r: seq<User>)
    ensures |r| == |t|
    ensures forall k :: 0 <= k < |t| ==>
              r[k] == if t[k].id == id then t[k].(username := username, email := email) else t[k]
  {
    if t == [] then []
    else
      var head := if t[0].id == id then t[0].(username := username, email := email) else t[0];
      [head] + UpdateRows(t[1..], id, username, email)
  }

  /** The table after the row with key `id` has been deleted. */
  function Remove(t: seq<User>, id: nat): (r: seq<User>)
    ensures |r| <= |t|
    ensures forall u :: u in r <==> u in t && u.id != id
  {
    if t == [] then []
    else if t[0].id == id then Remove(t[1..], id)
    else [t[0]] + Remove(t[1..], id)
  }

  /** Under the primary-key rule a lookup by id finds the one row holding it. */
  lemma GetUserByIdUnique(t: seq<User>, k: nat)
    requires DistinctIds(t) && k < |t|
    ensures GetUserById(t, t[k].id) == Some(t[k])
  {
    var r := GetUserById(t, t[k].id);
    assert r.Some?;
    var j :| 0 <= j < |t| && t[j] == r.value;
  }

  /** Under the uniqueness rule a lookup by email finds the one row holding it. */
  lemma GetUserByEmailUnique(t: seq<User>, k: nat)
    requires UniqueEmails(t) && k < |t|
    ensures GetUserByEmail(t, t[k].email) == Some(t[k])
  {
    var r := GetUserByEmail(t, t[k].email);
    assert r.Some?;
    var j :| 0 <= j < |t| && t[j] == r.value;
  }

  /** A row appended under a fresh id is what a lookup by that id returns. */
  lemma AppendedIsFound(t: seq<User>, u: User)
    requires !HasId(t, u.id)
    ensures GetUserById(t + [u], u.id) == Some(u)
  {
    assert (t + [u])[|t|] == u;
    var r := GetUserById(t + [u], u.id);
    var j :| 0 <= j < |t + [u]| && (t + [u])[j] == r.value;
    if j < |t| { assert t[j].id == u.id; }
  }

  /** Appending a row does not change what a lookup of any other id returns. */
  lemma AppendKeepsOtherLookups(t: seq<User>, u: User, id: nat)
    requires DistinctIds(t) && id != u.id
    ensures GetUserById(t + [u], id) == GetUserById(t, id)
  {
    var t' := t + [u];
    if HasId(t, id) {
      var k :| 0 <= k < |t| && t[k].id == id;
      GetUserByIdUnique(t, k);
      assert t'[k] == t[k];
      var r := GetUserById(t', id);
      assert r.Some?;
      var j :| 0 <= j < |t'| && t'[j] == r.value;
      assert j < |t| && t[j] == t'[j];
    } else {
      forall k | 0 <= k < |t'| ensures t'[k].id != id {
        if k < |t| { assert t'[k] == t[k]; }
      }
    }
  }

  /** Deleting a key no row holds leaves the table as it was. */
  lemma {:induction false} RemoveAbsent(t: seq<User>, id: nat)
    requires !HasId(t, id)
    ensures Remove(t, id) == t
  {
    if t != [] {
      assert t[0].id != id;
      assert !HasId(t[1..], id) by {
        forall k | 0 <= k < |t[1..]| ensures t[1..][k].id != id {
          assert t[1..][k] == t[k + 1];
        }
      }
      RemoveAbsent(t[1..], id);
      assert t == [t[0]] + t[1..];
    }
  }

  /** The rows after the first keep the primary-key rule. */
  lemma DistinctIdsTail(t: seq<User>)
    requires DistinctIds(t) && t != []
    ensures DistinctIds(t[1..])
  {
    forall i, j | 0 <= i < |t[1..]| && 0 <= j < |t[1..]| && i != j
      ensures t[1..][i].id != t[1..][j].id
    {
      assert t[1..][i] == t[i + 1] && t[1..][j] == t[j + 1];
    }
  }

  /** Taking row `k > 0` out of a table is taking row `k - 1` out of its tail. */
  lemma DropFromTail(t: seq<User>, k: nat)
    requires 0 < k < |t|
    ensures t[..k] + t[k + 1..] == [t[0]] + (t[1..][..k - 1] + t[1..][k..])
  {
    assert t[1..][..k - 1] == t[1..k];
    assert t[1..][k..] == t[k + 1..];
    assert t[..k] == [t[0]] + t[1..k];
  }

  /** Deleting the key of row `k` takes out exactly that row and keeps the
      others in their order. */
  lemma {:induction false} RemoveExactlyOne(t: seq<User>, k: nat)
    requires DistinctIds(t) && k < |t|
    ensures Remove(t, t[k].id) == t[..k] + t[k + 1..]
  {
    var id := t[k].id;
    var tail := t[1..];
    DistinctIdsTail(t);
    if k == 0 {
      assert !HasId(tail, id) by {
        forall i | 0 <= i < |tail| ensures tail[i].id != id {
          assert tail[i] == t[i + 1];
        }
      }
      RemoveAbsent(tail, id);
    } else {
      assert t[0].id != id;
      assert tail[k - 1] == t[k];
      RemoveExactlyOne(tail, k - 1);
      DropFromTail(t, k);
    }
  }

  /** Dropping the row at `k` keeps the primary-key rule, the freshness of the
      next id and the uniqueness of emails. */
  lemma DropPreserves(t: seq<User>, k: nat, n: nat)
    requires k < |t|
    ensures DistinctIds(t) ==> DistinctIds(t[..k] + t[k + 1..])
    ensures IdsBelow(t, n) ==> IdsBelow(t[..k] + t[k + 1..], n)
    ensures UniqueEmails(t) ==> UniqueEmails(t[..k] + t[k + 1..])
  {
    var r := t[..k] + t[k + 1..];
    assert |r| == |t| - 1;
    forall i | 0 <= i < |r| ensures r[i] == t[if i < k then i else i + 1] {
      if i < k { assert r[i] == t[..k][i]; } else { assert r[i] == t[k + 1..][i - k]; }
    }
  }

  /** Deleting a key keeps the primary-key rule, the freshness of the next id
      and the uniqueness of emails. */
  lemma RemovePreserves(t: seq<User>, id: nat, n: nat)
    requires DistinctIds(t)
    ensures DistinctIds(Remove(t, id))
    ensures IdsBelow(t, n) ==> IdsBelow(Remove(t, id), n)
    ensures UniqueEmails(t) ==> UniqueEmails(Remove(t, id))
  {
    if HasId(t, id) {
      var k :| 0 <= k < |t| && t[k].id == id;
      RemoveExactlyOne(t, k);
      DropPreserves(t, k, n);
    } else {
      RemoveAbsent(t, id);
    }
  }

  /** Deleting a key makes lookups of it fail and does not change what a
      lookup of any other id returns. */
  lemma RemoveKeepsOtherLookups(t: seq<User>, id: nat, j: nat)
    requires DistinctIds(t)
    ensures GetUserById(Remove(t, id), id) == None
    ensures j != id ==> GetUserById(Remove(t, id), j) == GetUserById(t, j)
  {
    var t' := Remove(t, id);
    RemovePreserves(t, id, 0);
    forall m | 0 <= m < |t'| ensures t'[m].id != id {
      assert t'[m] in t';
    }
    if j != id {
      if HasId(t, j) {
        var m :| 0 <= m < |t| && t[m].id == j;
        GetUserByIdUnique(t, m);
        assert t[m] in t';
        var m' :| 0 <= m' < |t'| && t'[m'] == t[m];
        GetUserByIdUnique(t', m');
      } else {
        forall m | 0 <= m < |t'| ensures t'[m].id != j {
          assert t'[m] in t;
        }
      }
    }
  }

  /** Rewriting one row's username and email keeps every id in place, and keeps
      emails unique when the new email was in use nowhere. */
  lemma UpdateRowsPreserves(t: seq<User>, id: nat, username: string, email: string, n: nat)
    requires DistinctIds(t)
    ensures DistinctIds(UpdateRows(t, id, username, email))
    ensures IdsBelow(t, n) ==> IdsBelow(UpdateRows(t, id, username, email), n)
    ensures UniqueEmails(t) && !HasEmail(t, email) ==> UniqueEmails(UpdateRows(t, id, username, email))
  {
    var r := UpdateRows(t, id, username, email);
    assert forall k :: 0 <= k < |t| ==> r[k].id == t[k].id;
    if UniqueEmails(t) && !HasEmail(t, email) {
      forall i, j | 0 <= i < |r| && 0 <= j < |r| && i != j
        ensures r[i].email != r[j].email
      {
        assert t[i].email != email && t[j].email != email;
      }
    }
  }

  /** After an update, a lookup of the target finds it with its new username
      and email. */
  lemma UpdateRowsFindsTarget(t: seq<User>, id: nat, username: string, email: string)
    requires DistinctIds(t) && HasId(t, id)
    ensures GetUserById(UpdateRows(t, id, username, email), id)
            == Some(GetUserById(t, id).value.(username := username, email := email))
  {
    var r := UpdateRows(t, id, username, email);
    UpdateRowsPreserves(t, id, username, email, 0);
    var k :| 0 <= k < |t| && t[k].id == id;
    GetUserByIdUnique(t, k);
    GetUserByIdUnique(r, k);
  }

  /** After an update, a lookup of any other id finds what it found before. */
  lemma UpdateRowsKeepsOtherLookups(t: seq<User>, id: nat, username: string, email: string, j: nat)
    requires DistinctIds(t) && j != id
    ensures GetUserById(UpdateRows(t, id, username, email), j) == GetUserById(t, j)
  {
    var r := UpdateRows(t, id, username, email);
    if HasId(t, j) {
      UpdateRowsPreserves(t, id, username, email, 0);
      var m :| 0 <= m < |t| && t[m].id == j;
      GetUserByIdUnique(t, m);
      GetUserByIdUnique(r, m);
    } else {
      forall m | 0 <= m < |r| ensures r[m].id != j {
        assert r[m].id == t[m].id;
      }
    }
  }

  /** The shared database session, reduced to the one table it serves. */
  class Store {
    var rows: seq<User>
    var nextId: nat

    predicate Valid()
      reads this
    {
      WellFormed(State())
    }

    function State(): Db
      reads this
    {
      Db(rows, nextId)
    }

    constructor ()
      ensures Valid() && State() == EmptyDb
    {
      rows := [];
      nextId := 1;
    }

    /** `get_all_users`: every row, in the order they were inserted. */
    method GetAllUsers() returns (all: seq<User>)
      ensures all == rows
    {
      all := rows;
    }

    /** `add_user`: insert one row with a fresh id and the clock's time, and
        return it. */
    method AddUser(username: string, email: string, now: Timestamp) returns (user: User)
      requires Valid()
      modifies this
      ensures Valid()
      ensures user == User(old(nextId), username, email, now)
      ensures !HasId(old(rows), user.id)
      ensures rows == old(rows) + [user] && nextId == old(nextId) + 1
      ensures GetUserById(rows, user.id) == Some(user)
    {
      user := User(nextId, username, email, now);
      AppendedIsFound(rows, user);
      rows := rows + [user];
      nextId := nextId + 1;
    }

    /** `update_user`: overwrite the username and email of a row of the table
        and return the row as it now is. */
    method UpdateUser(user: User, username: string, email: string) returns (updated: User)
      requires Valid() && user in rows
      modifies this
      ensures Valid() && nextId == old(nextId)
      ensures updated == user.(username := username, email := email)
      ensures rows == UpdateRows(old(rows), user.id, username, email)
      ensures GetUserById(rows, user.id) == Some(updated)
    {
      var k :| 0 <= k < |rows| && rows[k] == user;
      UpdateRowsPreserves(rows, user.id, username, email, nextId);
      rows := UpdateRows(rows, user.id, username, email);
      updated := user.(username := username, email := email);
      GetUserByIdUnique(rows, k);
    }

    /** `delete_user`: delete a row of the table and return it. */
    method DeleteUser(user: User) returns (removed: User)
      requires Valid() && user in rows
      modifies this
      ensures Valid() && nextId == old(nextId)
      ensures removed == user
      ensures rows == Remove(old(rows), user.id)
      ensures exists k :: 0 <= k < |old(rows)| && old(rows)[k] == user && rows == old(rows)[..k] + old(rows)[k + 1..]
      ensures GetUserById(rows, user.id) == None
    {
      var k :| 0 <= k < |rows| && rows[k] == user;
      RemoveExactlyOne(rows, k);
      RemovePreserves(rows, user.id, nextId);
      rows := Remove(rows, user.id);
      removed := user;
    }
  }
}
