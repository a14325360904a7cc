# Memento photo-album server: access control and tables

This project models the server side of Memento, a shared photo-album app. Users
register and log in. They create albums and invite other users as members. They
add images to an album and attach one audio recording to an image. The model
covers the service layer that decides who may do what, the five tables it
relies on (users, albums, album_members, images, audio) and the
registration/login router.

How it is modelled:

- **Tables are classes.** Each table is a class whose `rows` field is a
  sequence in insertion order. `nextId` plays the SERIAL id counter and `clock`
  a monotone timestamp. `Valid()` says ids and timestamps grow along the table.
- **Writes are methods.** Every INSERT/UPDATE/DELETE is a method, and its
  contract gives the new `rows` exactly. It is written as a spec function of
  the old rows (`Renamed`, `PatchedRows`, `WithUrl`, `RemoveAt`, `WithoutImage`)
  or as "old rows plus the new row".
- **Lookups are functions.** `SELECT ... fetchone()` is modelled by `FirstIndex`.
- **List queries with loops.** A query that builds its result in a loop is a
  method with a loop. It is proved equal to a filter function (`Visible`,
  `RowsOfAlbum`, `ImagesOfAlbum`), and the ordering (`ORDER BY ... DESC/ASC`)
  is proved about that function.
- **Access rules are defined once.** `Access.CanAccessAlbum` (owner or member)
  and `Access.IsCreator` are the two rules.
- **Services return results.** Every service operation returns `Result`:
  either the value, or a `Failure` carrying the HTTP status class and the exact
  `detail` text the code raises. The contracts state the order of the checks
  (existence before permission) and the state afterwards.
- **Cross-table invariants.** Two are proved: membership pairs only name album
  ids already issued (so a new album's only member is its owner), and no image
  has two audio rows.
- **Credentials are symbolic.** A password hash is `Hashed(password)`, and a
  JWT is reduced to its subject claim. `NatToString`/`ParseNat` model `str()`
  and `int()` on ids, with a proved round trip.

The model follows the code on these points:

- `create_album` inserts the owner as a member row
  (server/app/services/album_service.py:18-19).
- Removing the owner gives 400, not 403.
- Deletes do not cascade. The database schema (foreign keys and their
  ON DELETE rules) is not part of the source, so the model assumes no foreign
  keys at all. Member rows of a deleted album, and images or audio whose
  parent is gone, stay in their tables. The services' "Album not found" /
  "Associated image not found" branches are reachable for exactly that reason.
- `register` raises "Failed to create user" inside its own `try`. The
  `except Exception` clause catches it, so the detail the client sees is
  "Error creating user: 500: Failed to create user".

## Model

| member | source | states |
|---|---|---|
| `Records.FirstIndex` | server/app/repositories/album_repository.py:38-45 | the row `fetchone()` returns for a WHERE condition: the first matching position, or none when no row matches |
| `Records.RemoveAtMembers` | server/app/repositories/album_repository.py:89-102 | deleting the row at one position leaves exactly the elements at the other positions |
| `Credentials.NatToString` | server/app/routers/auth.py:58 | `str()` of an id is a non-empty digit string with no leading zero |
| `Credentials.ParseNatToString` | server/app/routers/auth.py:58 | `str()` on an id can be inverted: parsing the digit string gives the id back (the `int()` that reads a subject back is in app/dependencies/auth.py, which is not part of this model) |
| `Credentials.NatToStringInjective` | server/app/routers/auth.py:58 | different user ids never give the same token subject |
| `UserRepository.UserTable.CreateUser` | server/app/repositories/user_repository.py:7-36 | appends one row holding the hash of the password, never the password; the result has id, email, name and created_at and no hash; no row on a database fault |
| `UserRepository.UserTable.GetUserByEmail` | server/app/repositories/user_repository.py:39-58 | a stored row with that email, hash included, exactly when one exists |
| `UserRepository.UserTable.GetUserById` | server/app/repositories/user_repository.py:61-79 | the public shape (no hash) of a row with that id, exactly when one exists |
| `AlbumMemberRepository.RowsOfAlbum` | server/app/repositories/album_member_repository.py:55-75 | exactly one album's member rows, oldest first whenever the table is |
| `AlbumMemberRepository.RemoveKeepsOrder` | server/app/repositories/album_member_repository.py:36-52 | a delete keeps the table ordered and its (album_id, user_id) pairs unique |
| `AlbumMemberRepository.RemoveTakesPair` | server/app/repositories/album_member_repository.py:36-52 | deleting the row of a pair removes exactly that pair from the membership relation |
| `AlbumMemberRepository.MemberTable.IsAlbumMember` | server/app/repositories/album_member_repository.py:78-91 | true iff the (album, user) pair is in the table |
| `AlbumMemberRepository.MemberTable.AddAlbumMember` | server/app/repositories/album_member_repository.py:6-33 | a new pair is appended with that album and user and returned; an existing pair (ON CONFLICT DO NOTHING) gives none and leaves the table unchanged; pairs stay unique |
| `AlbumMemberRepository.MemberTable.RemoveAlbumMember` | server/app/repositories/album_member_repository.py:36-52 | true iff the pair was present; then exactly the one row holding that pair is deleted, else the rows are unchanged; afterwards the pair is absent and every other pair is kept |
| `AlbumMemberRepository.MemberTable.GetAlbumMembers` | server/app/repositories/album_member_repository.py:55-75 | the loop collects exactly that album's rows, ordered by created_at ascending |
| `AlbumRepository.Visible` | server/app/repositories/album_repository.py:105-127 | exactly the albums the user owns or is a member of, newest first when the table is in insertion order |
| `AlbumRepository.AlbumIdsUnique` | server/app/repositories/album_repository.py:36-55 | in a well-formed table an id names at most one album, so the lookup by id is determined |
| `AlbumRepository.RemoveAlbumRow` | server/app/repositories/album_repository.py:89-102 | a delete keeps the table ordered and removes exactly the rows with that id |
| `AlbumRepository.AlbumTable.CreateAlbum` | server/app/repositories/album_repository.py:6-33 | appends and returns one row with a fresh id and the given name and owner; other rows unchanged |
| `AlbumRepository.AlbumTable.GetAlbumById` | server/app/repositories/album_repository.py:36-55 | none iff no row has that id; otherwise a row with that id |
| `AlbumRepository.AlbumTable.UpdateAlbum` | server/app/repositories/album_repository.py:58-86 | only the name of the row with that id changes, id and owner_id kept; none iff no row has that id |
| `AlbumRepository.AlbumTable.DeleteAlbum` | server/app/repositories/album_repository.py:89-102 | true iff a row with that id existed; afterwards none has it and all other rows remain |
| `AlbumRepository.AlbumTable.GetUserAlbums` | server/app/repositories/album_repository.py:105-127 | the loop collects exactly the albums the user owns or belongs to, each once (DISTINCT), newest first |
| `ImageRepository.ImagesOfAlbum` | server/app/repositories/image_repository.py:150-175 | exactly the images whose album_id is the album's |
| `ImageRepository.ImagesOfAlbumNewestFirst` | server/app/repositories/image_repository.py:150-175 | the album's images come ordered by date_added descending |
| `ImageRepository.SetClause` | server/app/repositories/image_repository.py:85-102 | the SET list is empty exactly when no field was supplied |
| `ImageRepository.Apply` | server/app/repositories/image_repository.py:104-109 | running the SET list never changes id, album_id, user_id or the dates |
| `ImageRepository.ApplySetClause` | server/app/repositories/image_repository.py:85-131 | running the assembled SET list overwrites exactly the supplied fields among caption, image_url and location |
| `ImageRepository.ApplyAppend` | server/app/repositories/image_repository.py:104-108 | running two SET lists one after the other equals running their concatenation |
| `ImageRepository.PatchedRowsAt` | server/app/repositories/image_repository.py:104-109 | the UPDATE touches only the one row with that id |
| `ImageRepository.PatchedRowsUnchanged` | server/app/repositories/image_repository.py:100-102 | with no field supplied, or no row with the id, the table is unchanged |
| `ImageRepository.ImageIdsUnique` | server/app/repositories/image_repository.py:50-73 | in a well-formed table an id names at most one image |
| `ImageRepository.RemoveImageRow` | server/app/repositories/image_repository.py:134-147 | a delete keeps the table ordered and removes exactly the rows with that id |
| `ImageRepository.ImageTable.CreateImage` | server/app/repositories/image_repository.py:6-47 | appends one row storing album_id, caption, image_url, location and user_id as given, with a fresh id |
| `ImageRepository.ImageTable.GetImageById` | server/app/repositories/image_repository.py:50-73 | none iff the id is absent |
| `ImageRepository.ImageTable.UpdateImage` | server/app/repositories/image_repository.py:76-131 | overwrites exactly the non-None fields of the row with that id; album_id and user_id never change; with all fields None no write and the current row returned |
| `ImageRepository.ImageTable.DeleteImage` | server/app/repositories/image_repository.py:134-147 | true iff the row existed; afterwards the id is absent and all other rows remain |
| `ImageRepository.ImageTable.GetAlbumImages` | server/app/repositories/image_repository.py:150-175 | the loop collects exactly that album's images, ordered by date_added descending |
| `AudioRepository.WithoutImage` | server/app/repositories/audio_repository.py:140-153 | exactly the rows of other images remain |
| `AudioRepository.WithoutImageKeepsOrder` | server/app/repositories/audio_repository.py:140-153 | deleting by image keeps the remaining rows in table order |
| `AudioRepository.WithoutImageCount` | server/app/repositories/audio_repository.py:140-153 | the row count drops (rowcount > 0) exactly when the image had audio |
| `AudioRepository.OnePerImage` | server/app/repositories/audio_repository.py:62-82 | with at most one audio per image, the row found for an image is its only one |
| `AudioRepository.AudioIdsUnique` | server/app/repositories/audio_repository.py:40-59 | in a well-formed table an id names at most one audio row |
| `AudioRepository.RemoveAudioRow` | server/app/repositories/audio_repository.py:124-137 | a delete keeps the table ordered, keeps at most one audio per image, and removes exactly the rows with that id |
| `AudioRepository.AudioTable.CreateAudio` | server/app/repositories/audio_repository.py:6-37 | appends one row with the given image_id and url and a fresh id |
| `AudioRepository.AudioTable.GetAudioById` | server/app/repositories/audio_repository.py:40-59 | none iff the id is absent |
| `AudioRepository.AudioTable.GetAudioByImageId` | server/app/repositories/audio_repository.py:62-82 | a row of that image if one exists, else none |
| `AudioRepository.AudioTable.UpdateAudio` | server/app/repositories/audio_repository.py:85-121 | with url None no write and the existing row returned; otherwise only the url of that row changes, image_id kept |
| `AudioRepository.AudioTable.DeleteAudio` | server/app/repositories/audio_repository.py:124-137 | true iff the row existed; afterwards the id is absent |
| `AudioRepository.AudioTable.DeleteAudioByImageId` | server/app/repositories/audio_repository.py:140-153 | removes every row of that image and returns true iff at least one was removed |
| `AlbumService.CreateAlbum` | server/app/services/album_service.py:8-21 | the new album is owned by the caller; exactly one member row (new album, caller) is appended, so the caller is its one and only member; on a failed insert Internal and neither table changes |
| `AlbumService.GetAlbum` | server/app/services/album_service.py:24-43 | NotFound iff the album is absent; otherwise success iff the caller is owner or member, else Forbidden |
| `AlbumService.UpdateAlbum` | server/app/services/album_service.py:46-73 | NotFound before Forbidden; only the owner succeeds; with no name the album comes back unchanged and nothing is written |
| `AlbumService.DeleteAlbum` | server/app/services/album_service.py:76-97 | NotFound before Forbidden; only the owner succeeds, and afterwards the album id is absent |
| `AlbumService.GetUserAlbums` | server/app/services/album_service.py:100-103 | exactly the albums the user can access, newest first |
| `AlbumService.AddAlbumMember` | server/app/services/album_service.py:106-136 | non-owner gets Forbidden; target == owner gets BadRequest; an existing member gets BadRequest with the table unchanged; otherwise the pair is added and the target gains access |
| `AlbumService.RemoveAlbumMember` | server/app/services/album_service.py:139-167 | every failure (404, 403, BadRequest for the owner, NotFound for a non-member) leaves the member rows unchanged; otherwise exactly the one row holding the pair is deleted, the target loses access and nobody else's access changes |
| `ImageService.CreateImageAsWritten` | server/app/services/image_service.py:8-45 | as written the call always fails; it is a 500 exactly when the album checks pass |
| `ImageService.CreateImage` | server/app/services/image_service.py:8-45 | NotFound if the album is absent, Forbidden unless owner or member; on success the new image is in that album, created by the caller, with the request's fields |
| `ImageService.GetImage` | server/app/services/image_service.py:48-75 | NotFound if the image is absent, NotFound if its album is absent, success iff the caller can access that album, else Forbidden |
| `ImageService.UpdateImageAsWritten` | server/app/services/image_service.py:78-110 | as written the call always fails; it is a 500 exactly when the caller created the image |
| `ImageService.UpdateImage` | server/app/services/image_service.py:78-110 | NotFound before Forbidden; only the creator succeeds (owning the album is not enough), and exactly the supplied fields change |
| `ImageService.DeleteImage` | server/app/services/image_service.py:113-134 | NotFound before Forbidden; only the creator succeeds, and afterwards the image id is absent |
| `ImageService.GetAlbumImages` | server/app/services/image_service.py:137-158 | NotFound if the album is absent; only an owner or member gets the list, which is exactly that album's images, newest first |
| `AudioService.CreateAudio` | server/app/services/audio_service.py:7-45 | NotFound if the image is absent, Forbidden unless the caller created it, BadRequest if it already has audio; no image ever gains a second audio row |
| `AudioService.GetAudio` | server/app/services/audio_service.py:48-82 | "Audio not found" iff no row has the id; "Associated image not found" iff the audio exists and its image does not; success iff the caller can access the image's album, returning that audio |
| `AudioService.GetAudioAlbumChecks` | server/app/services/audio_service.py:64-80 | with the audio and its image found, "Album not found" iff the image's album is absent, and the 403 iff the album exists and the caller is neither owner nor member |
| `AudioService.GetAudioByImage` | server/app/services/audio_service.py:85-119 | the image and access checks come first; "No audio found" iff the caller has access and the image has no audio; success iff the caller has access and the image has audio, returning the image's only audio |
| `AudioService.AudioByImageChecksAccessFirst` | server/app/services/audio_service.py:102-117 | a caller without access gets Forbidden whether or not the image has audio |
| `AudioService.UpdateAudio` | server/app/services/audio_service.py:122-158 | only the creator of the parent image succeeds, and only the url changes |
| `AudioService.DeleteAudio` | server/app/services/audio_service.py:161-189 | only the creator of the parent image succeeds, and afterwards the audio id is absent |
| `AuthRouter.Register` | server/app/routers/auth.py:12-36 | an email already present gets BadRequest and no insert; a failed insert gets Internal; on success exactly one user has that email and login with that password succeeds |
| `AuthRouter.Login` | server/app/routers/auth.py:39-63 | an unknown email or a wrong password gives the same 401; success iff the stored hash matches; the token's subject is the user's id and its type "bearer" |
| `AuthRouter.EmailNamesOneUser` | server/app/routers/auth.py:16-21 | with unique emails a row is the only one with its email |
| `AuthRouter.LoginSubjectIsUserId` | server/app/routers/auth.py:58-63 | the token subject reads back as the id of the user with that email |
| `AuthRouter.LoginFailuresAlike` | server/app/routers/auth.py:43-55 | a wrong password for a known email gives the same answer as an unknown email |
| `AuthRouter.GetMe` | server/app/routers/auth.py:66-69 | returns the authenticated user unchanged |

## Left out

- Password hashing and token signing are outside the model. bcrypt, its
  salting and 72-byte truncation, python-jose, the secret key, the algorithm
  and the expiry time are not modelled. A hash only remembers its password, and
  a token only carries its subject.
- Database errors are not modelled. Where a driver or constraint error is
  raised, the repositories roll back and re-raise; `register` wraps such an
  error as "Error creating user: ...". The one database outcome that is
  modelled is an insert that returns no row, as the `fault` parameter.
- The UPDATE/DELETE "Failed to ..." 500 branches of the services are kept.
  Each of them follows a successful lookup of the same row, so in this
  sequential model they cannot be reached.
- Transactions, commits and rollbacks are not modelled. So are concurrent
  requests, such as two registrations racing on one email or two audio uploads
  racing on one image. Each repository call is one atomic step, and the
  album-plus-owner-member pair in create_album is two steps.
- Timestamps are a counter, and `str()` of a timestamp is not modelled.
  `updated_at` is set on insert and never changed, because no trigger that
  changes it is shown.
- A query with `LIMIT 1` and no ORDER BY (`get_audio_by_image_id`,
  `is_album_member`) is modelled as the first matching row in table order.
- The database schema is not part of the source, so its foreign keys and
  ON DELETE behaviour are assumed absent. If album_members had a plain foreign
  key to albums, delete_album would fail on the owner's member row; the model
  cannot show that.
- Reading a token back (`int()` on its subject) happens in
  app/dependencies/auth.py, which is not part of this model; only the writing
  side, `str()` on ids, is modelled and proved invertible.
- AuthRouter.GetMe: app/dependencies/auth.py (`get_current_user`, token
  decoding and the user lookup) is not part of this model. GetMe receives the
  user that dependency resolved.
- The route layer is not modelled: FastAPI routing, status codes 201/204,
  request validation (EmailStr) and response models.
  server/app/main.py mounts only the health and auth routers; the album, image
  and audio routers are thin pass-throughs to the services.
- Cloudinary upload signing, the health check, the example router, settings,
  the Android client and the smoke-test script are outside the access-control
  core and are not modelled.
- CreateImageAsWritten and UpdateImageAsWritten model the failing call as a
  500 "Internal Server Error" with no write. They do not model which exception
  is raised first.

## Findings

| source | as written | input that shows it | evidently intended | confidence | as-written member | corrected member |
|---|---|---|---|---|---|---|
| server/app/services/image_service.py:29-37 | create_image passes `latitude=image_data.latitude, longitude=image_data.longitude` to the repository; ImageCreate declares `location` and no coordinates, and `image_repository.create_image` takes no such parameters | any request for an album the caller owns, e.g. album 1 owned by user 1, caller 1: reading `image_data.latitude` raises AttributeError and the client gets a 500 | pass `location=image_data.location`; the image is stored with the request's caption, url and location | high (not executed) | `ImageService.CreateImageAsWritten` | `ImageService.CreateImage` |
| server/app/services/image_service.py:95-102 | update_image passes `latitude=`/`longitude=` read from ImageUpdate, which declares only caption, image_url and location | the creator updating their own image, any fields: AttributeError, 500, nothing written | pass `location=image_data.location`; the supplied fields overwrite the stored ones | high (not executed) | `ImageService.UpdateImageAsWritten` | `ImageService.UpdateImage` |
