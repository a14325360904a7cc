/** The users table (server/app/repositories/user_repository.py). */
module UserRepository {
  import opened Records
  import opened Credentials

  /** The columns `RETURNING id, email, name, created_at` hands back. */
  function Public(u: UserRow): UserPublic
  {
    UserPublic(u.id, u.email, u.name, u.createdAt)
  }

  class UserTable {
    /** Rows in insertion order. */
    var rows: seq<UserRow>
    /** Next value of the SERIAL id. */
    var nextId: Id
    /** Timestamp the next insert receives. */
    var clock: Stamp

    /** Ids and creation times grow along the table and are all issued already. */
    ghost predicate Valid()
      reads this
    {
      && (forall i, j :: 0 <= i < j < |rows| ==> rows[i].id < rows[j].id && rows[i].createdAt < rows[j].createdAt)
      && (forall i :: 0 <= i < |rows| ==> rows[i].id < nextId && rows[i].createdAt < clock)
    }

    /** No two users share an email. The repository does not check this itself;
        registration keeps it (AuthRouter.Register). */
    ghost predicate EmailsUnique()
      reads this
    {
      forall i, j :: 0 <= i < j < |rows| ==> rows[i].email != rows[j].email
    }

    constructor ()
      ensures Valid() && EmailsUnique() && rows == []
    {
      rows, nextId, clock := [], 1, 0;
    }

    /** INSERT INTO users ... RETURNING id, email, name, created_at. The stored
        row holds the hash of the password; the returned shape has no hash at all.
        `fault` stands for the database returning no row. */
    method CreateUser(email: string, password: string, name: string, fault: bool) returns (r: Option<UserPublic>)
      requires Valid()
      modifies this
      ensures Valid()
      ensures fault ==> r.None? && rows == old(rows)
      ensures !fault ==> r == Some(UserPublic(old(nextId), email, name, old(clock)))
      ensures !fault ==> rows == old(rows) + [UserRow(old(nextId), email, Hash(password), name, old(clock))]
      ensures r.Some? ==> forall u :: u in old(rows) ==> u.id != r.value.id
    {
      if fault {
        r := None;
        return;
      }
      var row := UserRow(nextId, email, Hash(password), name, clock);
      rows := rows + [row];
      nextId, clock := nextId + 1, clock + 1;
      r := Some(Public(row));
    }

    /** SELECT id, email, password_hash, name, created_at ... WHERE email = :email:
        the full row, hash included, or None when no user has that email. */
    function GetUserByEmail(email: string): (r: Option<UserRow>)
      reads this
      ensures r.Some? <==> exists u :: u in rows && u.email == email
      ensures r.Some? ==> r.value in rows && r.value.email == email
    {
      var i := FirstIndex(rows, (u: UserRow) => u.email == email);
      if i < |rows| then Some(rows[i]) else None
    }

    /** SELECT id, email, name, created_at ... WHERE id = :user_id: never the hash. */
    function GetUserById(id: Id): (r: Option<UserPublic>)
      reads this
      ensures r.Some? <==> exists u :: u in rows && u.id == id
      ensures r.Some? ==> exists u :: u in rows && u.id == id && r.value == Public(u)
    {
      var i := FirstIndex(rows, (u: UserRow) => u.id == id);
      if i < |rows| then Some(Public(rows[i])) else None
    }
  }
}
