/** Record shapes of the five tables, the service layer's error kinds and a few
    sequence helpers shared by every repository. */
module Records {

  /** Database ids (SERIAL columns) and timestamps. A timestamp is a reading of a
      monotone counter that every insert advances. */
  type Id = nat
  type Stamp = nat

  datatype Option<+T> = None | Some(value: T)

  /** The HTTP statuses the services raise: 400, 401, 403, 404 and 500. */
  datatype Status = BadRequest | Unauthorized | Forbidden | NotFound | Internal

  /** An HTTPException: a status and its detail message. */
  datatype Failure = Failure(status: Status, detail: string)

  datatype Result<+T> = Ok(value: T) | Err(error: Failure)

  /** Opaque stand-in for a bcrypt hash: the model only knows which password it came from. */
  datatype PasswordHash = Hashed(secret: string)

  /** users: (id, email, password_hash, name, created_at). */
  datatype UserRow = UserRow(id: Id, email: string, passwordHash: PasswordHash, name: string, createdAt: Stamp)

  /** The user shape that leaves the repository without its password hash. */
  datatype UserPublic = UserPublic(id: Id, email: string, name: string, createdAt: Stamp)

  /** albums: (id, name, owner_id, created_at, updated_at). */
  datatype AlbumRow = AlbumRow(id: Id, name: string, ownerId: Id, createdAt: Stamp, updatedAt: Stamp)

  /** album_members: (id, album_id, user_id, created_at). */
  datatype MemberRow = MemberRow(id: Id, albumId: Id, userId: Id, createdAt: Stamp)

  /** images: (id, album_id, caption, image_url, location, date_added, user_id,
      created_at, updated_at). The repository knows `location` only; the image
      service also passes latitude and longitude, which neither the repository nor
      the request shapes declare (see ImageService.CreateImageAsWritten). */
  datatype ImageRow = ImageRow(
    id: Id, albumId: Id, caption: Option<string>, imageUrl: string, location: Option<string>,
    dateAdded: Stamp, userId: Id, createdAt: Stamp, updatedAt: Stamp)

  /** audio: (id, image_id, url, created_at, updated_at). */
  datatype AudioRow = AudioRow(id: Id, imageId: Id, url: string, createdAt: Stamp, updatedAt: Stamp)

  /** Request bodies (ImageCreate, ImageUpdate). */
  datatype ImageCreate = ImageCreate(albumId: Id, caption: Option<string>, imageUrl: string, location: Option<string>)
  datatype ImageUpdate = ImageUpdate(caption: Option<string>, imageUrl: Option<string>, location: Option<string>)

  /** Position of the first element satisfying `p`, or |s| when there is none:
      the row a `WHERE ... ` query followed by `fetchone()` returns. */
  function FirstIndex<T>(s: seq<T>, p: T -> bool): (i: nat)
    ensures i <= |s|
    ensures i < |s| ==> p(s[i])
    ensures forall j :: 0 <= j < i ==> !p(s[j])
  {
    if s == [] then 0
    else if p(s[0]) then 0
    else 1 + FirstIndex(s[1..], p)
  }

  /** The sequence without its element at position k. */
  function RemoveAt<T>(s: seq<T>, k: nat): (r: seq<T>)
    requires k < |s|
    ensures |r| == |s| - 1
    ensures forall i :: 0 <= i < k ==> r[i] == s[i]
    ensures forall i :: k <= i < |r| ==> r[i] == s[i + 1]
  {
    s[..k] + s[k + 1..]
  }

  /** Which elements survive RemoveAt: those at every other position. */
  lemma RemoveAtMembers<T>(s: seq<T>, k: nat)
    requires k < |s|
    ensures forall x :: x in RemoveAt(s, k) <==> exists i :: 0 <= i < |s| && i != k && s[i] == x
  {
    var r := RemoveAt(s, k);
    forall x | x in r
      ensures exists i :: 0 <= i < |s| && i != k && s[i] == x
    {
      var i :| 0 <= i < |r| && r[i] == x;
      if i < k { assert s[i] == x; } else { assert s[i + 1] == x; }
    }
    forall x | exists i :: 0 <= i < |s| && i != k && s[i] == x
      ensures x in r
    {
      var i :| 0 <= i < |s| && i != k && s[i] == x;
      if i < k { assert r[i] == x; } else { assert r[i - 1] == x; }
    }
  }
}
