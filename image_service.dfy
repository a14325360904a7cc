/** Image operations with their access rules (server/app/services/image_service.py).
    Reading an image or listing an album needs access to the album; changing or
    deleting an image is for its creator alone. */
module ImageService {
  import opened Records
  import opened Access
  import opened AlbumMemberRepository
  import opened AlbumRepository
  import opened ImageRepository
  import opened AlbumService

  const ImageNotFound := Failure(NotFound, "Image not found")
  const NoImageAccess := Failure(Forbidden, "You don't have access to this image")
  const ImageCreateFailed := Failure(Internal, "Failed to create image")
  const OnlyCreatorUpdates := Failure(Forbidden, "Only the image creator can update the image")
  const ImageUpdateFailed := Failure(Internal, "Failed to update image")
  const OnlyCreatorDeletes := Failure(Forbidden, "Only the image creator can delete the image")
  const ImageDeleteFailed := Failure(Internal, "Failed to delete image")
  /** What the server answers when a handler raises an exception it does not catch. */
  const ServerError := Failure(Internal, "Internal Server Error")

  /** The image's album exists and the user owns it or is a member of it. */
  ghost predicate CanAccessImage(albums: AlbumTable, members: MemberTable, image: ImageRow, userId: Id)
    reads albums, members
  {
    exists a :: a in albums.rows && a.id == image.albumId && CanAccessAlbum(a, members.Pairs(), userId)
  }

  /** create_image as written: once the album checks pass it reads `latitude`
      and `longitude` from the request, which ImageCreate does not declare (and
      the repository does not accept), so the call raises and the caller gets a
      500 in place of the image. Nothing is written. */
  function CreateImageAsWritten(albums: AlbumTable, members: MemberTable, data: ImageCreate, userId: Id): (r: Result<ImageRow>)
    reads albums, members
    requires albums.Valid()
    ensures r.Err?
    ensures r == Err(ServerError) <==>
              exists a :: a in albums.rows && a.id == data.albumId && CanAccessAlbum(a, members.Pairs(), userId)
  {
    match GetAlbum(albums, members, data.albumId, userId)
    case Err(e) => Err(e)
    case Ok(_) => Err(ServerError)
  }

  /** create_image with the request's own fields (album, caption, url, location)
      passed to the repository: an album the user can access gets a new image
      created by the user, with the request's fields. */
  method CreateImage(albums: AlbumTable, members: MemberTable, images: ImageTable, data: ImageCreate, userId: Id, fault: bool)
    returns (r: Result<ImageRow>)
    requires albums.Valid() && images.Valid()
    modifies images
    ensures images.Valid()
    ensures var check := GetAlbum(albums, members, data.albumId, userId);
            && (check.Err? ==> r == Err(check.error))
            && (check.Ok? && fault ==> r == Err(ImageCreateFailed))
            && (check.Ok? && !fault ==> r.Ok?)
    ensures r.Ok? ==> images.rows == old(images.rows) + [r.value]
    ensures r.Err? ==> images.rows == old(images.rows)
    ensures r.Ok? ==> && r.value.albumId == data.albumId && r.value.userId == userId
                      && r.value.caption == data.caption && r.value.imageUrl == data.imageUrl
                      && r.value.location == data.location
    ensures r.Ok? ==> CanAccessImage(albums, members, r.value, userId) && IsCreator(r.value, userId)
    ensures r.Ok? ==> forall x :: x in old(images.rows) ==> x.id != r.value.id
  {
    var check := GetAlbum(albums, members, data.albumId, userId);
    if check.Err? {
      r := Err(check.error);
      return;
    }
    var image := images.CreateImage(data.albumId, data.imageUrl, userId, data.caption, data.location, fault);
    if image.None? {
      r := Err(ImageCreateFailed);
      return;
    }
    r := Ok(image.value);
  }

  /** get_image: the image when its album exists and the user can access it. A
      missing image gives 404 "Image not found"; an image whose album is gone
      gives 404 "Album not found"; otherwise no access gives 403. */
  function GetImage(albums: AlbumTable, members: MemberTable, images: ImageTable, imageId: Id, userId: Id): (r: Result<ImageRow>)
    reads albums, members, images
    requires albums.Valid() && images.Valid()
    ensures r == Err(ImageNotFound) <==> forall x :: x in images.rows ==> x.id != imageId
    ensures r == Err(AlbumNotFound) <==>
              exists x :: x in images.rows && x.id == imageId && forall a :: a in albums.rows ==> a.id != x.albumId
    ensures r.Ok? <==> exists x :: x in images.rows && x.id == imageId && CanAccessImage(albums, members, x, userId)
    ensures r.Ok? ==> r.value in images.rows && r.value.id == imageId
    ensures r.Err? ==> r.error in {ImageNotFound, AlbumNotFound, NoImageAccess}
  {
    match images.GetImageById(imageId)
    case None => Err(ImageNotFound)
    case Some(image) =>
      ImageIdsUnique(images.rows, image);
      match albums.GetAlbumById(image.albumId)
      case None => Err(AlbumNotFound)
      case Some(album) =>
        AlbumIdsUnique(albums.rows, album);
        var isOwner := album.ownerId == userId;
        var isMember := members.IsAlbumMember(image.albumId, userId);
        if !(isOwner || isMember) then Err(NoImageAccess) else Ok(image)
  }

  /** update_image as written: once the creator check passes it reads
      `latitude` and `longitude` from the request, which ImageUpdate does not
      declare, so the call raises and the caller gets a 500. Nothing is written. */
  function UpdateImageAsWritten(images: ImageTable, imageId: Id, upd: ImageUpdate, userId: Id): (r: Result<ImageRow>)
    reads images
    requires images.Valid()
    ensures r.Err?
    ensures r == Err(ServerError) <==> exists x :: x in images.rows && x.id == imageId && IsCreator(x, userId)
  {
    match images.GetImageById(imageId)
    case None => Err(ImageNotFound)
    case Some(image) =>
      ImageIdsUnique(images.rows, image);
      if image.userId != userId then Err(OnlyCreatorUpdates) else Err(ServerError)
  }

  /** update_image with the request's own fields passed to the repository: only
      the creator may update, and the supplied fields overwrite the stored ones. */
  method UpdateImage(images: ImageTable, imageId: Id, upd: ImageUpdate, userId: Id) returns (r: Result<ImageRow>)
    requires images.Valid()
    modifies images
    ensures images.Valid() && images.nextId == old(images.nextId) && images.clock == old(images.clock)
    ensures var found := old(images.GetImageById(imageId));
            && (found.None? ==> r == Err(ImageNotFound))
            && (found.Some? && !IsCreator(found.value, userId) ==> r == Err(OnlyCreatorUpdates))
            && (found.Some? && IsCreator(found.value, userId) ==> r == Ok(Patched(found.value, upd)))
    ensures r.Ok? ==> images.rows == PatchedRows(old(images.rows), imageId, upd)
    ensures r.Err? ==> images.rows == old(images.rows)
  {
    var image := images.GetImageById(imageId);
    if image.None? {
      r := Err(ImageNotFound);
      return;
    }
    if image.value.userId != userId {
      r := Err(OnlyCreatorUpdates);
      return;
    }
    ImageIdsUnique(images.rows, image.value);
    var updated := images.UpdateImage(imageId, upd);
    if updated.None? {
      assert false;
      r := Err(ImageUpdateFailed);
      return;
    }
    r := Ok(updated.value);
  }

  /** delete_image: only the creator may delete; afterwards no row has the id.
      The image's audio stays behind. */
  method DeleteImage(images: ImageTable, imageId: Id, userId: Id) returns (r: Result<()>)
    requires images.Valid()
    modifies images
    ensures images.Valid() && images.nextId == old(images.nextId) && images.clock == old(images.clock)
    ensures var found := old(images.GetImageById(imageId));
            && (found.None? ==> r == Err(ImageNotFound))
            && (found.Some? && !IsCreator(found.value, userId) ==> r == Err(OnlyCreatorDeletes))
            && (found.Some? && IsCreator(found.value, userId) ==> r == Ok(()))
    ensures r.Ok? ==> forall x :: x in images.rows <==> x in old(images.rows) && x.id != imageId
    ensures r.Err? ==> images.rows == old(images.rows)
  {
    var image := images.GetImageById(imageId);
    if image.None? {
      r := Err(ImageNotFound);
      return;
    }
    if image.value.userId != userId {
      r := Err(OnlyCreatorDeletes);
      return;
    }
    var success := images.DeleteImage(imageId);
    if !success {
      assert false;
      r := Err(ImageDeleteFailed);
      return;
    }
    r := Ok(());
  }

  /** get_album_images: with access to the album, exactly its images, newest first. */
  function GetAlbumImages(albums: AlbumTable, members: MemberTable, images: ImageTable, albumId: Id, userId: Id)
    : (r: Result<seq<ImageRow>>)
    reads albums, members, images
    requires albums.Valid() && images.Valid()
    ensures r == Err(AlbumNotFound) <==> forall a :: a in albums.rows ==> a.id != albumId
    ensures r.Ok? <==> exists a :: a in albums.rows && a.id == albumId && CanAccessAlbum(a, members.Pairs(), userId)
    ensures r.Err? ==> r.error in {AlbumNotFound, NoAccess}
    ensures r.Ok? ==> forall x :: x in r.value <==> x in images.rows && x.albumId == albumId
    ensures r.Ok? ==> ImagesNewestFirst(r.value)
  {
    match GetAlbum(albums, members, albumId, userId)
    case Err(e) => Err(e)
    case Ok(_) =>
      ImagesOfAlbumNewestFirst(images.rows, albumId);
      Ok(ImagesOfAlbum(images.rows, albumId))
  }
}
