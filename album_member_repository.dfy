/** The album_members table (server/app/repositories/album_member_repository.py):
    a set of (album_id, user_id) pairs kept unique by the table's conflict target. */
module AlbumMemberRepository {
  import opened Records
  import opened Access

  /** Creation times grow along the sequence: `ORDER BY created_at ASC`. */
  ghost predicate MembersOldestFirst(s: seq<MemberRow>)
  {
    forall i, j :: 0 <= i < j < |s| ==> s[i].createdAt < s[j].createdAt
  }

  /** The rows of one album, in table order. */
  function RowsOfAlbum(s: seq<MemberRow>, albumId: Id): (r: seq<MemberRow>)
    ensures forall m :: m in r <==> m in s && m.albumId == albumId
    ensures MembersOldestFirst(s) ==> MembersOldestFirst(r)
  {
    if s == [] then []
    else
      var last := s[|s| - 1];
      RowsOfAlbum(s[..|s| - 1], albumId) + (if last.albumId == albumId then [last] else [])
  }

  /** Ids and creation times grow along the table. */
  ghost predicate MembersOrdered(s: seq<MemberRow>)
  {
    forall i, j :: 0 <= i < j < |s| ==> s[i].id < s[j].id && s[i].createdAt < s[j].createdAt
  }

  /** No (album_id, user_id) pair occurs twice. */
  ghost predicate PairsUnique(s: seq<MemberRow>)
  {
    forall i, j :: 0 <= i < j < |s| ==> s[i].albumId != s[j].albumId || s[i].userId != s[j].userId
  }

  function PairsOf(s: seq<MemberRow>): Membership
  {
    set m | m in s :: (m.albumId, m.userId)
  }

  /** Deleting one row keeps the table ordered and the pairs unique. */
  lemma RemoveKeepsOrder(s: seq<MemberRow>, k: nat)
    requires k < |s| && MembersOrdered(s) && PairsUnique(s)
    ensures MembersOrdered(RemoveAt(s, k)) && PairsUnique(RemoveAt(s, k))
  {
    var r := RemoveAt(s, k);
    forall i, j | 0 <= i < j < |r|
      ensures r[i].id < r[j].id && r[i].createdAt < r[j].createdAt
      ensures r[i].albumId != r[j].albumId || r[i].userId != r[j].userId
    {
      var i', j' := if i < k then i else i + 1, if j < k then j else j + 1;
      assert r[i] == s[i'] && r[j] == s[j'] && i' < j';
    }
  }

  /** Deleting the one row of a pair takes exactly that pair out of the relation. */
  lemma RemoveTakesPair(s: seq<MemberRow>, k: nat)
    requires k < |s| && PairsUnique(s)
    ensures PairsOf(RemoveAt(s, k)) == PairsOf(s) - {(s[k].albumId, s[k].userId)}
  {
    var r := RemoveAt(s, k);
    var gone := (s[k].albumId, s[k].userId);
    forall p | p in PairsOf(s) - {gone}
      ensures p in PairsOf(r)
    {
      var m :| m in s && (m.albumId, m.userId) == p;
      var i :| 0 <= i < |s| && s[i] == m;
      if i < k { assert r[i] == m; } else { assert r[i - 1] == m; }
    }
    forall p | p in PairsOf(r)
      ensures p in PairsOf(s) - {gone}
    {
      var m :| m in r && (m.albumId, m.userId) == p;
      var i :| 0 <= i < |r| && r[i] == m;
      if i < k { assert s[i] == m; } else { assert s[i + 1] == m; }
    }
  }

  class MemberTable {
    /** Rows in insertion order. */
    var rows: seq<MemberRow>
    /** Next value of the SERIAL id. */
    var nextId: Id
    /** Timestamp the next insert receives. */
    var clock: Stamp

    /** Ids and creation times grow along the table and are all issued already;
        no (album_id, user_id) pair occurs twice. */
    ghost predicate Valid()
      reads this
    {
      && MembersOrdered(rows)
      && (forall i :: 0 <= i < |rows| ==> rows[i].id < nextId && rows[i].createdAt < clock)
      && PairsUnique(rows)
    }

    constructor ()
      ensures Valid() && rows == []
    {
      rows, nextId, clock := [], 1, 0;
    }

    /** The membership relation the table holds. */
    function Pairs(): Membership
      reads this
    {
      PairsOf(rows)
    }

    /** SELECT 1 ... WHERE album_id = :album_id AND user_id = :user_id LIMIT 1. */
    function IsAlbumMember(albumId: Id, userId: Id): (r: bool)
      reads this
      ensures r <==> (albumId, userId) in Pairs()
    {
      FirstIndex(rows, (m: MemberRow) => m.albumId == albumId && m.userId == userId) < |rows|
    }

    /** INSERT ... ON CONFLICT (album_id, user_id) DO NOTHING RETURNING ...: a
        new pair is appended and returned; an existing pair leaves the table as it
        was and yields None. Either way the pair is in the relation afterwards. */
    method AddAlbumMember(albumId: Id, userId: Id) returns (r: Option<MemberRow>)
      requires Valid()
      modifies this
      ensures Valid()
      ensures (albumId, userId) in old(Pairs()) ==> r.None? && rows == old(rows)
      ensures (albumId, userId) !in old(Pairs()) ==>
                r == Some(MemberRow(old(nextId), albumId, userId, old(clock))) && rows == old(rows) + [r.value]
      ensures Pairs() == old(Pairs()) + {(albumId, userId)}
    {
      if IsAlbumMember(albumId, userId) {
        r := None;
        return;
      }
      var row := MemberRow(nextId, albumId, userId, clock);
      rows := rows + [row];
      nextId, clock := nextId + 1, clock + 1;
      r := Some(row);
    }

    /** DELETE ... WHERE album_id = :album_id AND user_id = :user_id, reporting
        whether a row went away (rowcount > 0). */
    method RemoveAlbumMember(albumId: Id, userId: Id) returns (removed: bool)
      requires Valid()
      modifies this
      ensures Valid()
      ensures removed <==> (albumId, userId) in old(Pairs())
      ensures Pairs() == old(Pairs()) - {(albumId, userId)}
      ensures !removed ==> rows == old(rows)
      ensures removed ==> exists k :: && 0 <= k < |old(rows)| && old(rows)[k].albumId == albumId
                                      && old(rows)[k].userId == userId && rows == RemoveAt(old(rows), k)
      ensures nextId == old(nextId) && clock == old(clock)
    {
      var k := FirstIndex(rows, (m: MemberRow) => m.albumId == albumId && m.userId == userId);
      removed := k < |rows|;
      if removed {
        RemoveKeepsOrder(rows, k);
        RemoveTakesPair(rows, k);
        rows := RemoveAt(rows, k);
      }
    }

    /** SELECT ... WHERE album_id = :album_id ORDER BY created_at ASC, collected
        row by row. */
    method GetAlbumMembers(albumId: Id) returns (members: seq<MemberRow>)
      requires Valid()
      ensures members == RowsOfAlbum(rows, albumId)
      ensures forall m :: m in members <==> m in rows && m.albumId == albumId
      ensures MembersOldestFirst(members)
    {
      members := [];
      var i := 0;
      while i < |rows|
        invariant 0 <= i <= |rows|
        invariant members == RowsOfAlbum(rows[..i], albumId)
      {
        if rows[i].albumId == albumId {
          members := members + [rows[i]];
        }
        assert rows[..i + 1][..i] == rows[..i];
        i := i + 1;
      }
      assert rows[..i] == rows;
    }
  }
}
