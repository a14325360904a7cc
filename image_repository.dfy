/** The images table (server/app/repositories/image_repository.py). The table's
    columns are album_id, caption, image_url, location and user_id; there are no
    latitude or longitude columns. */
module ImageRepository {
  import opened Records

  /** Ids and dates grow along the table. */
  ghost predicate ImagesOrdered(s: seq<ImageRow>)
  {
    forall i, j :: 0 <= i < j < |s| ==> s[i].id < s[j].id && s[i].dateAdded < s[j].dateAdded
  }

  /** `ORDER BY date_added DESC`; ids fall too, so no image occurs twice. */
  ghost predicate ImagesNewestFirst(s: seq<ImageRow>)
  {
    forall i, j :: 0 <= i < j < |s| ==> s[i].id > s[j].id && s[i].dateAdded > s[j].dateAdded
  }

  /** The images of one album, newest first. */
  function ImagesOfAlbum(s: seq<ImageRow>, albumId: Id): (r: seq<ImageRow>)
    ensures forall x :: x in r <==> x in s && x.albumId == albumId
  {
    if s == [] then []
    else ImagesOfAlbum(s[1..], albumId) + (if s[0].albumId == albumId then [s[0]] else [])
  }

  /** A table in insertion order yields its album's images newest first. */
  lemma {:induction false} ImagesOfAlbumNewestFirst(s: seq<ImageRow>, albumId: Id)
    requires ImagesOrdered(s)
    ensures ImagesNewestFirst(ImagesOfAlbum(s, albumId))
  {
    if s != [] {
      var rest := ImagesOfAlbum(s[1..], albumId);
      ImagesOfAlbumNewestFirst(s[1..], albumId);
      forall i | 0 <= i < |rest| ensures rest[i].id > s[0].id && rest[i].dateAdded > s[0].dateAdded {
        assert rest[i] in s[1..];
        var j :| 0 <= j < |s[1..]| && s[1..][j] == rest[i];
        assert s[j + 1] == rest[i];
      }
    }
  }

  /** One entry of the `SET` list update_image assembles. */
  datatype Assignment = SetCaption(caption: string) | SetImageUrl(imageUrl: string) | SetLocation(location: string)

  /** The assignments for the supplied (non-None) fields, in the order the
      repository appends them. */
  function SetClause(upd: ImageUpdate): (updates: seq<Assignment>)
    ensures updates == [] <==> upd == ImageUpdate(None, None, None)
  {
    (if upd.caption.Some? then [SetCaption(upd.caption.value)] else [])
    + (if upd.imageUrl.Some? then [SetImageUrl(upd.imageUrl.value)] else [])
    + (if upd.location.Some? then [SetLocation(upd.location.value)] else [])
  }

  /** What the UPDATE statement does to one row. */
  function Apply(row: ImageRow, updates: seq<Assignment>): (r: ImageRow)
    ensures r.id == row.id && r.albumId == row.albumId && r.userId == row.userId
    ensures r.dateAdded == row.dateAdded && r.createdAt == row.createdAt && r.updatedAt == row.updatedAt
    decreases |updates|
  {
    if updates == [] then row else Apply(Assign(row, updates[0]), updates[1..])
  }

  /** One `column = :value` entry applied to a row. */
  function Assign(row: ImageRow, a: Assignment): ImageRow
  {
    match a
    case SetCaption(c) => row.(caption := Some(c))
    case SetImageUrl(u) => row.(imageUrl := u)
    case SetLocation(l) => row.(location := Some(l))
  }

  /** A field keeps its value unless the update supplies one. */
  function Patched(row: ImageRow, upd: ImageUpdate): ImageRow
  {
    row.(caption := if upd.caption.Some? then upd.caption else row.caption,
         imageUrl := if upd.imageUrl.Some? then upd.imageUrl.value else row.imageUrl,
         location := if upd.location.Some? then upd.location else row.location)
  }

  /** Running the assembled SET list overwrites exactly the supplied fields. */
  lemma {:induction false} ApplySetClause(row: ImageRow, upd: ImageUpdate)
    ensures Apply(row, SetClause(upd)) == Patched(row, upd)
  {
    var c := if upd.caption.Some? then [SetCaption(upd.caption.value)] else [];
    var u := if upd.imageUrl.Some? then [SetImageUrl(upd.imageUrl.value)] else [];
    var l := if upd.location.Some? then [SetLocation(upd.location.value)] else [];
    var afterC := if upd.caption.Some? then row.(caption := upd.caption) else row;
    var afterU := if upd.imageUrl.Some? then afterC.(imageUrl := upd.imageUrl.value) else afterC;
    var afterL := if upd.location.Some? then afterU.(location := upd.location) else afterU;
    ApplyAppend(row, c, u + l);
    ApplyAppend(afterC, u, l);
    assert Apply(row, c) == afterC;
    assert Apply(afterC, u) == afterU;
    assert Apply(afterU, l) == afterL;
    assert SetClause(upd) == c + (u + l);
  }

  lemma {:induction false} ApplyAppend(row: ImageRow, a: seq<Assignment>, b: seq<Assignment>)
    ensures Apply(row, a + b) == Apply(Apply(row, a), b)
    decreases |a|
  {
    if a != [] {
      assert (a + b)[0] == a[0] && (a + b)[1..] == a[1..] + b;
      ApplyAppend(Assign(row, a[0]), a[1..], b);
    } else {
      assert a + b == b;
    }
  }

  /** The table after the update: every row with the given id patched. */
  function PatchedRows(s: seq<ImageRow>, id: Id, upd: ImageUpdate): (r: seq<ImageRow>)
    ensures |r| == |s|
  {
    seq(|s|, i requires 0 <= i < |s| => if s[i].id == id then Patched(s[i], upd) else s[i])
  }

  /** In an ordered table the update touches the one row with that id. */
  lemma PatchedRowsAt(s: seq<ImageRow>, k: nat, upd: ImageUpdate)
    requires k < |s| && ImagesOrdered(s)
    ensures PatchedRows(s, s[k].id, upd) == s[k := Patched(s[k], upd)]
  {
    forall i | 0 <= i < |s| && i != k ensures s[i].id != s[k].id {
      assert i < k || k < i;
    }
  }

  /** With no matching row, or with no field supplied, the table is unchanged. */
  lemma PatchedRowsUnchanged(s: seq<ImageRow>, id: Id, upd: ImageUpdate)
    requires (forall x :: x in s ==> x.id != id) || upd == ImageUpdate(None, None, None)
    ensures PatchedRows(s, id, upd) == s
  {
    forall i | 0 <= i < |s| ensures PatchedRows(s, id, upd)[i] == s[i] {
      assert s[i] in s;
    }
  }

  /** In an ordered table an id names at most one row. */
  lemma ImageIdsUnique(s: seq<ImageRow>, x: ImageRow)
    requires ImagesOrdered(s) && x in s
    ensures forall y :: y in s && y.id == x.id ==> y == x
  {
    forall y | y in s && y.id == x.id ensures y == x {
      var i :| 0 <= i < |s| && s[i] == x;
      var j :| 0 <= j < |s| && s[j] == y;
      assert !(i < j) && !(j < i);
    }
  }

  /** Deleting the row at k keeps the table ordered and removes exactly the rows
      with that row's id. */
  lemma RemoveImageRow(s: seq<ImageRow>, k: nat)
    requires k < |s| && ImagesOrdered(s)
    ensures ImagesOrdered(RemoveAt(s, k))
    ensures forall x :: x in RemoveAt(s, k) <==> x in s && x.id != s[k].id
  {
    var r := RemoveAt(s, k);
    forall i, j | 0 <= i < j < |r|
      ensures r[i].id < r[j].id && r[i].dateAdded < r[j].dateAdded
    {
      var i', j' := if i < k then i else i + 1, if j < k then j else j + 1;
      assert r[i] == s[i'] && r[j] == s[j'] && i' < j';
    }
    RemoveAtMembers(s, k);
  }

  class ImageTable {
    /** Rows in insertion order. */
    var rows: seq<ImageRow>
    /** Next value of the SERIAL id. */
    var nextId: Id
    /** Timestamp the next insert receives. */
    var clock: Stamp

    /** Ids and dates grow along the table and are all issued already. */
    ghost predicate Valid()
      reads this
    {
      && ImagesOrdered(rows)
      && (forall i :: 0 <= i < |rows| ==> rows[i].id < nextId && rows[i].dateAdded < clock)
    }

    constructor ()
      ensures Valid() && rows == []
    {
      rows, nextId, clock := [], 1, 0;
    }

    /** INSERT INTO images (album_id, caption, image_url, location, user_id) ...
        RETURNING ...: the fields are stored as given. The album id is not checked
        here. `fault` stands for the database returning no row. */
    method CreateImage(albumId: Id, imageUrl: string, userId: Id, caption: Option<string>, location: Option<string>, fault: bool)
      returns (r: Option<ImageRow>)
      requires Valid()
      modifies this
      ensures Valid()
      ensures fault ==> r.None? && rows == old(rows)
      ensures !fault ==> r == Some(ImageRow(old(nextId), albumId, caption, imageUrl, location, old(clock), userId, old(clock), old(clock)))
      ensures !fault ==> rows == old(rows) + [r.value]
      ensures r.Some? ==> forall x :: x in old(rows) ==> x.id != r.value.id
    {
      if fault {
        r := None;
        return;
      }
      var row := ImageRow(nextId, albumId, caption, imageUrl, location, clock, userId, clock, clock);
      rows := rows + [row];
      nextId, clock := nextId + 1, clock + 1;
      r := Some(row);
    }

    /** SELECT ... FROM images WHERE id = :image_id. */
    function GetImageById(id: Id): (r: Option<ImageRow>)
      reads this
      ensures r.Some? <==> exists x :: x in rows && x.id == id
      ensures r.Some? ==> r.value in rows && r.value.id == id
    {
      var i := FirstIndex(rows, (x: ImageRow) => x.id == id);
      if i < |rows| then Some(rows[i]) else None
    }

    /** Assembles the SET list from the supplied fields; with none supplied it
        writes nothing and returns the row as it stands, otherwise it overwrites
        those fields of the matching row (None when no row has that id). Album
        and creator never change. */
    method UpdateImage(id: Id, upd: ImageUpdate) returns (r: Option<ImageRow>)
      requires Valid()
      modifies this
      ensures Valid() && nextId == old(nextId) && clock == old(clock)
      ensures upd == ImageUpdate(None, None, None) ==> rows == old(rows) && r == old(GetImageById(id))
      ensures r.Some? <==> exists x :: x in old(rows) && x.id == id
      ensures rows == PatchedRows(old(rows), id, upd)
      ensures r.Some? ==> exists x :: x in old(rows) && x.id == id && r.value == Patched(x, upd)
    {
      var updates: seq<Assignment> := [];
      if upd.caption.Some? {
        updates := updates + [SetCaption(upd.caption.value)];
      }
      if upd.imageUrl.Some? {
        updates := updates + [SetImageUrl(upd.imageUrl.value)];
      }
      if upd.location.Some? {
        updates := updates + [SetLocation(upd.location.value)];
      }
      assert updates == SetClause(upd);
      if updates == [] {
        r := GetImageById(id);
        if r.Some? {
          assert r.value == Patched(r.value, upd);
        }
        PatchedRowsUnchanged(rows, id, upd);
        return;
      }
      var k := FirstIndex(rows, (x: ImageRow) => x.id == id);
      if k == |rows| {
        PatchedRowsUnchanged(rows, id, upd);
        r := None;
        return;
      }
      PatchedRowsAt(rows, k, upd);
      ApplySetClause(rows[k], upd);
      var row := Apply(rows[k], updates);
      rows := rows[k := row];
      r := Some(row);
    }

    /** DELETE FROM images WHERE id = :image_id, reporting rowcount > 0. Audio
        rows of the image are not touched. */
    method DeleteImage(id: Id) returns (deleted: bool)
      requires Valid()
      modifies this
      ensures Valid() && nextId == old(nextId) && clock == old(clock)
      ensures deleted <==> exists x :: x in old(rows) && x.id == id
      ensures forall x :: x in rows <==> x in old(rows) && x.id != id
      ensures !deleted ==> rows == old(rows)
      ensures deleted ==> exists k :: 0 <= k < |old(rows)| && rows == RemoveAt(old(rows), k)
    {
      var k := FirstIndex(rows, (x: ImageRow) => x.id == id);
      deleted := k < |rows|;
      if deleted {
        RemoveImageRow(rows, k);
        rows := RemoveAt(rows, k);
      }
    }

    /** SELECT ... WHERE album_id = :album_id ORDER BY date_added DESC, collected
        row by row: exactly that album's images, newest first. */
    method GetAlbumImages(albumId: Id) returns (images: seq<ImageRow>)
      requires Valid()
      ensures images == ImagesOfAlbum(rows, albumId)
      ensures forall x :: x in images <==> x in rows && x.albumId == albumId
      ensures ImagesNewestFirst(images)
    {
      images := [];
      var i := |rows|;
      while i > 0
        invariant 0 <= i <= |rows|
        invariant images == ImagesOfAlbum(rows[i..], albumId)
      {
        i := i - 1;
        assert rows[i..][1..] == rows[i + 1..];
        if rows[i].albumId == albumId {
          images := images + [rows[i]];
        }
      }
      ImagesOfAlbumNewestFirst(rows, albumId);
    }
  }
}
