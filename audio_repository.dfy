/** The audio table (server/app/repositories/audio_repository.py). */
module AudioRepository {
  import opened Records

  /** Ids and creation times grow along the table. */
  ghost predicate AudioOrdered(s: seq<AudioRow>)
  {
    forall i, j :: 0 <= i < j < |s| ==> s[i].id < s[j].id && s[i].createdAt < s[j].createdAt
  }

  /** No image has two audio rows. The repository does not enforce this; the
      audio service keeps it (AudioService.CreateAudio). */
  ghost predicate AtMostOnePerImage(s: seq<AudioRow>)
  {
    forall i, j :: 0 <= i < j < |s| ==> s[i].imageId != s[j].imageId
  }

  /** The table after `DELETE FROM audio WHERE image_id = :image_id`. */
  function WithoutImage(s: seq<AudioRow>, imageId: Id): (r: seq<AudioRow>)
    ensures forall x :: x in r <==> x in s && x.imageId != imageId
  {
    if s == [] then []
    else (if s[0].imageId != imageId then [s[0]] else []) + WithoutImage(s[1..], imageId)
  }

  /** The delete keeps the remaining rows in table order. */
  lemma {:induction false} WithoutImageKeepsOrder(s: seq<AudioRow>, imageId: Id)
    requires AudioOrdered(s)
    ensures AudioOrdered(WithoutImage(s, imageId))
  {
    if s != [] {
      var rest := WithoutImage(s[1..], imageId);
      WithoutImageKeepsOrder(s[1..], imageId);
      forall i | 0 <= i < |rest| ensures rest[i].id > s[0].id && rest[i].createdAt > s[0].createdAt {
        assert rest[i] in s[1..];
        var j :| 0 <= j < |s[1..]| && s[1..][j] == rest[i];
        assert s[j + 1] == rest[i];
      }
    }
  }

  /** The row count drops exactly when the image had audio (rowcount > 0). */
  lemma {:induction false} WithoutImageCount(s: seq<AudioRow>, imageId: Id)
    ensures |WithoutImage(s, imageId)| <= |s|
    ensures |WithoutImage(s, imageId)| < |s| <==> exists x :: x in s && x.imageId == imageId
  {
    if s != [] {
      WithoutImageCount(s[1..], imageId);
      assert forall x :: x in s <==> x == s[0] || x in s[1..];
    }
  }

  /** The table after every row with the given id gets the url. */
  function WithUrl(s: seq<AudioRow>, id: Id, url: string): (r: seq<AudioRow>)
    ensures |r| == |s|
  {
    seq(|s|, i requires 0 <= i < |s| => if s[i].id == id then s[i].(url := url) else s[i])
  }

  /** With at most one recording per image, a recording is the only one of its image. */
  lemma OnePerImage(s: seq<AudioRow>, x: AudioRow)
    ensures AtMostOnePerImage(s) && x in s ==> forall y :: y in s && y.imageId == x.imageId ==> y == x
  {
    if AtMostOnePerImage(s) && x in s {
      forall y | y in s && y.imageId == x.imageId ensures y == x {
        var i :| 0 <= i < |s| && s[i] == x;
        var j :| 0 <= j < |s| && s[j] == y;
        assert !(i < j) && !(j < i);
      }
    }
  }

  /** In an ordered table an id names at most one row. */
  lemma AudioIdsUnique(s: seq<AudioRow>, x: AudioRow)
    requires AudioOrdered(s) && x in s
    ensures forall y :: y in s && y.id == x.id ==> y == x
  {
    forall y | y in s && y.id == x.id ensures y == x {
      var i :| 0 <= i < |s| && s[i] == x;
      var j :| 0 <= j < |s| && s[j] == y;
      assert !(i < j) && !(j < i);
    }
  }

  /** Deleting the row at k keeps the table ordered and removes exactly the rows
      with that row's id. */
  lemma RemoveAudioRow(s: seq<AudioRow>, k: nat)
    requires k < |s| && AudioOrdered(s)
    ensures AudioOrdered(RemoveAt(s, k))
    ensures AtMostOnePerImage(s) ==> AtMostOnePerImage(RemoveAt(s, k))
    ensures forall x :: x in RemoveAt(s, k) <==> x in s && x.id != s[k].id
  {
    var r := RemoveAt(s, k);
    forall i, j | 0 <= i < j < |r|
      ensures r[i].id < r[j].id && r[i].createdAt < r[j].createdAt
      ensures AtMostOnePerImage(s) ==> r[i].imageId != r[j].imageId
    {
      var i', j' := if i < k then i else i + 1, if j < k then j else j + 1;
      assert r[i] == s[i'] && r[j] == s[j'] && i' < j';
    }
    RemoveAtMembers(s, k);
  }

  class AudioTable {
    /** Rows in insertion order. */
    var rows: seq<AudioRow>
    /** Next value of the SERIAL id. */
    var nextId: Id
    /** Timestamp the next insert receives. */
    var clock: Stamp

    /** Ids and creation times grow along the table and are all issued already. */
    ghost predicate Valid()
      reads this
    {
      && AudioOrdered(rows)
      && (forall i :: 0 <= i < |rows| ==> rows[i].id < nextId && rows[i].createdAt < clock)
    }

    constructor ()
      ensures Valid() && rows == []
    {
      rows, nextId, clock := [], 1, 0;
    }

    /** INSERT INTO audio (image_id, url) ... RETURNING ...: one new row with the
        given image and url. Whether the image already has audio is not checked
        here. `fault` stands for the database returning no row. */
    method CreateAudio(imageId: Id, url: string, fault: bool) returns (r: Option<AudioRow>)
      requires Valid()
      modifies this
      ensures Valid()
      ensures fault ==> r.None? && rows == old(rows)
      ensures !fault ==> r == Some(AudioRow(old(nextId), imageId, url, old(clock), old(clock)))
      ensures !fault ==> rows == old(rows) + [r.value]
      ensures r.Some? ==> forall x :: x in old(rows) ==> x.id != r.value.id
    {
      if fault {
        r := None;
        return;
      }
      var row := AudioRow(nextId, imageId, url, clock, clock);
      rows := rows + [row];
      nextId, clock := nextId + 1, clock + 1;
      r := Some(row);
    }

    /** SELECT ... FROM audio WHERE id = :audio_id. */
    function GetAudioById(id: Id): (r: Option<AudioRow>)
      reads this
      ensures r.Some? <==> exists x :: x in rows && x.id == id
      ensures r.Some? ==> r.value in rows && r.value.id == id
    {
      var i := FirstIndex(rows, (x: AudioRow) => x.id == id);
      if i < |rows| then Some(rows[i]) else None
    }

    /** SELECT ... FROM audio WHERE image_id = :image_id LIMIT 1: some row of that
        image (the first in table order), or None when the image has none. */
    function GetAudioByImageId(imageId: Id): (r: Option<AudioRow>)
      reads this
      ensures r.Some? <==> exists x :: x in rows && x.imageId == imageId
      ensures r.Some? ==> r.value in rows && r.value.imageId == imageId
    {
      var i := FirstIndex(rows, (x: AudioRow) => x.imageId == imageId);
      if i < |rows| then Some(rows[i]) else None
    }

    /** With no url it writes nothing and returns the row as it stands; otherwise
        UPDATE audio SET url = :url WHERE id = :audio_id RETURNING ...: only the
        url of the matching row changes (None when no row has that id). */
    method UpdateAudio(id: Id, url: Option<string>) returns (r: Option<AudioRow>)
      requires Valid()
      modifies this
      ensures Valid() && nextId == old(nextId) && clock == old(clock)
      ensures url.None? ==> rows == old(rows) && r == old(GetAudioById(id))
      ensures AtMostOnePerImage(old(rows)) ==> AtMostOnePerImage(rows)
      ensures r.Some? <==> exists x :: x in old(rows) && x.id == id
      ensures url.Some? ==> rows == WithUrl(old(rows), id, url.value)
      ensures r.Some? ==> exists x :: x in old(rows) && x.id == id
                                      && r.value == (if url.Some? then x.(url := url.value) else x)
    {
      if url.None? {
        r := GetAudioById(id);
        return;
      }
      var k := FirstIndex(rows, (x: AudioRow) => x.id == id);
      if k == |rows| {
        r := None;
        return;
      }
      var row := rows[k].(url := url.value);
      rows := rows[k := row];
      r := Some(row);
    }

    /** DELETE FROM audio WHERE id = :audio_id, reporting rowcount > 0. */
    method DeleteAudio(id: Id) returns (deleted: bool)
      requires Valid()
      modifies this
      ensures Valid() && nextId == old(nextId) && clock == old(clock)
      ensures deleted <==> exists x :: x in old(rows) && x.id == id
      ensures forall x :: x in rows <==> x in old(rows) && x.id != id
      ensures AtMostOnePerImage(old(rows)) ==> AtMostOnePerImage(rows)
      ensures !deleted ==> rows == old(rows)
      ensures deleted ==> exists k :: 0 <= k < |old(rows)| && rows == RemoveAt(old(rows), k)
    {
      var k := FirstIndex(rows, (x: AudioRow) => x.id == id);
      deleted := k < |rows|;
      if deleted {
        RemoveAudioRow(rows, k);
        rows := RemoveAt(rows, k);
      }
    }

    /** DELETE FROM audio WHERE image_id = :image_id: every row of the image goes,
        and the result says whether there was at least one. */
    method DeleteAudioByImageId(imageId: Id) returns (deleted: bool)
      requires Valid()
      modifies this
      ensures Valid() && nextId == old(nextId) && clock == old(clock)
      ensures deleted <==> exists x :: x in old(rows) && x.imageId == imageId
      ensures rows == WithoutImage(old(rows), imageId)
      ensures forall x :: x in rows <==> x in old(rows) && x.imageId != imageId
    {
      var before := |rows|;
      WithoutImageKeepsOrder(rows, imageId);
      WithoutImageCount(rows, imageId);
      rows := WithoutImage(rows, imageId);
      deleted := |rows| < before;
    }
  }
}
