/**
 * The `user` table that registration writes and login reads. Email is the
 * table's unique lookup key (`findUnique({ where: { email } })`), so the
 * table is a map from email to record; ids come from an autoincrement counter.
 */
module UserDb {

  /** A stored account; `password` holds the credential record, never the plaintext. */
  datatype User = User(id: int, email: string, username: string, password: string)

  class UserTable {
    var users: map<string, User>
    /** The next value of the table's autoincrement id. */
    var nextId: int

    /** Every record sits under its own email, and ids are distinct and already issued. */
    ghost predicate Valid()
      reads this
    {
      && nextId >= 1
      && (forall e :: e in users ==> users[e].email == e && 1 <= users[e].id < nextId)
      && (forall e1, e2 :: e1 in users && e2 in users && e1 != e2 ==> users[e1].id != users[e2].id)
    }

    constructor ()
      ensures Valid() && users == map[]
    {
      users := map[];
      nextId := 1;
    }
  }
}
