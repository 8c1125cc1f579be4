/** The one entity of the user-record service, the table that holds it, and
    the facts about that table which the data-access layer and the request
    handlers rely on or maintain. */
module UserModel {

  datatype Option<+T> = None | Some(value: T)

  /** `created_date` is filled in from the clock when a record is inserted and
      is never written again; nothing here looks inside it. */
  type Timestamp = int

  /** One row of the `users` table. */
  datatype User = User(id: nat, username: string, email: string, createdDate: Timestamp)

  /** The whole table: its rows in insertion (primary-key) order, and the id the
      autoincrement hands to the next inserted row. */
  datatype Db = Db(rows: seq<User>, nextId: nat)

  /** The table as a fresh database starts it: no rows, ids counted from 1. */
  const EmptyDb: Db := Db([], 1)

  predicate HasId(t: seq<User>, id: nat) {
    exists k :: 0 <= k < |t| && t[k].id == id
  }

  predicate HasEmail(t: seq<User>, email: string) {
    exists k :: 0 <= k < |t| && t[k].email == email
  }

  /** `id` is the primary key: no two rows carry the same one. */
  predicate DistinctIds(t: seq<User>) {
    forall i, j :: 0 <= i < |t| && 0 <= j < |t| && i != j ==> t[i].id != t[j].id
  }

  /** Every id in use was handed out before `n`, so `n` is fresh. */
  predicate IdsBelow(t: seq<User>, n: nat) {
    forall k :: 0 <= k < |t| ==> t[k].id < n
  }

  /** The business rule the handlers enforce: no two rows share an email. */
  predicate UniqueEmails(t: seq<User>) {
    forall i, j :: 0 <= i < |t| && 0 <= j < |t| && i != j ==> t[i].email != t[j].email
  }

  /** What the store itself guarantees about the table. */
  predicate WellFormed(db: Db) {
    DistinctIds(db.rows) && IdsBelow(db.rows, db.nextId)
  }
}
