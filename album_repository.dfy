/** The albums table (server/app/repositories/album_repository.py). */
module AlbumRepository {
  import opened Records
  import opened Access
  import opened AlbumMemberRepository

  /** Ids and creation times grow along the table. */
  ghost predicate AlbumsOrdered(s: seq<AlbumRow>)
  {
    forall i, j :: 0 <= i < j < |s| ==> s[i].id < s[j].id && s[i].createdAt < s[j].createdAt
  }

  /** `ORDER BY created_at DESC`; ids fall along with the creation times, so no
      album occurs twice. */
  ghost predicate AlbumsNewestFirst(s: seq<AlbumRow>)
  {
    forall i, j :: 0 <= i < j < |s| ==> s[i].id > s[j].id && s[i].createdAt > s[j].createdAt
  }

  /** The albums of `s` that `userId` owns or is a member of, newest first: the
      result set of get_user_albums' join. */
  function Visible(s: seq<AlbumRow>, members: Membership, userId: Id): (r: seq<AlbumRow>)
    ensures forall a :: a in r <==> a in s && CanAccessAlbum(a, members, userId)
    ensures AlbumsOrdered(s) ==> AlbumsNewestFirst(r)
  {
    if s == [] then []
    else
      var rest := Visible(s[1..], members, userId);
      assert AlbumsOrdered(s) ==> forall i :: 0 <= i < |rest| ==> rest[i].id > s[0].id && rest[i].createdAt > s[0].createdAt by {
        if AlbumsOrdered(s) {
          forall i | 0 <= i < |rest| ensures rest[i].id > s[0].id && rest[i].createdAt > s[0].createdAt {
            assert rest[i] in s[1..];
            var j :| 0 <= j < |s[1..]| && s[1..][j] == rest[i];
            assert s[j + 1] == rest[i];
          }
        }
      }
      rest + (if CanAccessAlbum(s[0], members, userId) then [s[0]] else [])
  }

  /** In an ordered table an id names at most one row. */
  lemma AlbumIdsUnique(s: seq<AlbumRow>, a: AlbumRow)
    requires AlbumsOrdered(s) && a in s
    ensures forall b :: b in s && b.id == a.id ==> b == a
  {
    forall b | b in s && b.id == a.id ensures b == a {
      var i :| 0 <= i < |s| && s[i] == a;
      var j :| 0 <= j < |s| && s[j] == b;
      assert !(i < j) && !(j < i);
    }
  }

  /** The table after renaming every row with the given id. */
  function Renamed(s: seq<AlbumRow>, id: Id, name: string): (r: seq<AlbumRow>)
    ensures |r| == |s|
  {
    seq(|s|, i requires 0 <= i < |s| => if s[i].id == id then s[i].(name := name) else s[i])
  }

  /** Deleting the row at k keeps the table ordered and removes exactly the rows
      with that row's id. */
  lemma RemoveAlbumRow(s: seq<AlbumRow>, k: nat)
    requires k < |s| && AlbumsOrdered(s)
    ensures AlbumsOrdered(RemoveAt(s, k))
    ensures forall a :: a in RemoveAt(s, k) <==> a in s && a.id != s[k].id
  {
    var r := RemoveAt(s, k);
    forall i, j | 0 <= i < j < |r|
      ensures r[i].id < r[j].id && r[i].createdAt < r[j].createdAt
    {
      var i', j' := if i < k then i else i + 1, if j < k then j else j + 1;
      assert r[i] == s[i'] && r[j] == s[j'] && i' < j';
    }
    RemoveAtMembers(s, k);
  }

  class AlbumTable {
    /** Rows in insertion order. */
    var rows: seq<AlbumRow>
    /** Next value of the SERIAL id. */
    var nextId: Id
    /** Timestamp the next insert receives. */
    var clock: Stamp

    /** Ids and creation times grow along the table and are all issued already. */
    ghost predicate Valid()
      reads this
    {
      && AlbumsOrdered(rows)
      && (forall i :: 0 <= i < |rows| ==> rows[i].id < nextId && rows[i].createdAt < clock)
    }

    constructor ()
      ensures Valid() && rows == []
    {
      rows, nextId, clock := [], 1, 0;
    }

    /** INSERT INTO albums (name, owner_id) ... RETURNING ...: one new row with a
        fresh id, the given name and owner; the rows already there stay as they
        were. `fault` stands for the database returning no row. */
    method CreateAlbum(name: string, ownerId: Id, fault: bool) returns (r: Option<AlbumRow>)
      requires Valid()
      modifies this
      ensures Valid() && nextId == if fault then old(nextId) else old(nextId) + 1
      ensures fault ==> r.None? && rows == old(rows)
      ensures !fault ==> r == Some(AlbumRow(old(nextId), name, ownerId, old(clock), old(clock)))
      ensures !fault ==> rows == old(rows) + [r.value]
      ensures r.Some? ==> forall a :: a in old(rows) ==> a.id != r.value.id
    {
      if fault {
        r := None;
        return;
      }
      var row := AlbumRow(nextId, name, ownerId, clock, clock);
      rows := rows + [row];
      nextId, clock := nextId + 1, clock + 1;
      r := Some(row);
    }

    /** SELECT ... FROM albums WHERE id = :album_id. */
    function GetAlbumById(id: Id): (r: Option<AlbumRow>)
      reads this
      ensures r.Some? <==> exists a :: a in rows && a.id == id
      ensures r.Some? ==> r.value in rows && r.value.id == id
    {
      var i := FirstIndex(rows, (a: AlbumRow) => a.id == id);
      if i < |rows| then Some(rows[i]) else None
    }

    /** UPDATE albums SET name = :name WHERE id = :album_id RETURNING ...: only
        the name of the matching row changes; None when no row has that id. */
    method UpdateAlbum(id: Id, name: string) returns (r: Option<AlbumRow>)
      requires Valid()
      modifies this
      ensures Valid() && nextId == old(nextId) && clock == old(clock)
      ensures r.Some? <==> exists a :: a in old(rows) && a.id == id
      ensures rows == Renamed(old(rows), id, name)
      ensures r.Some? ==> exists a :: a in old(rows) && a.id == id && r.value == a.(name := name)
    {
      var k := FirstIndex(rows, (a: AlbumRow) => a.id == id);
      if k == |rows| {
        r := None;
        return;
      }
      var row := rows[k].(name := name);
      rows := rows[k := row];
      r := Some(row);
    }

    /** DELETE FROM albums WHERE id = :album_id, reporting rowcount > 0. Member
        rows and images of the album are not touched. */
    method DeleteAlbum(id: Id) returns (deleted: bool)
      requires Valid()
      modifies this
      ensures Valid() && nextId == old(nextId) && clock == old(clock)
      ensures deleted <==> exists a :: a in old(rows) && a.id == id
      ensures forall a :: a in rows <==> a in old(rows) && a.id != id
      ensures !deleted ==> rows == old(rows)
      ensures deleted ==> exists k :: 0 <= k < |old(rows)| && rows == RemoveAt(old(rows), k)
    {
      var k := FirstIndex(rows, (a: AlbumRow) => a.id == id);
      deleted := k < |rows|;
      if deleted {
        RemoveAlbumRow(rows, k);
        rows := RemoveAt(rows, k);
      }
    }

    /** SELECT DISTINCT a.* FROM albums a LEFT JOIN album_members am ... WHERE
        a.owner_id = :user_id OR am.user_id = :user_id ORDER BY a.created_at DESC,
        collected row by row: exactly the albums the user owns or belongs to,
        each once, newest first. */
    method GetUserAlbums(members: MemberTable, userId: Id) returns (albums: seq<AlbumRow>)
      requires Valid()
      ensures albums == Visible(rows, members.Pairs(), userId)
      ensures forall a :: a in albums <==> a in rows && CanAccessAlbum(a, members.Pairs(), userId)
      ensures AlbumsNewestFirst(albums)
      ensures forall i, j :: 0 <= i < j < |albums| ==> albums[i] != albums[j]
    {
      albums := [];
      var i := |rows|;
      while i > 0
        invariant 0 <= i <= |rows|
        invariant albums == Visible(rows[i..], members.Pairs(), userId)
      {
        i := i - 1;
        assert rows[i..][1..] == rows[i + 1..];
        if rows[i].ownerId == userId || members.IsAlbumMember(rows[i].id, userId) {
          albums := albums + [rows[i]];
        }
      }
    }
  }
}
