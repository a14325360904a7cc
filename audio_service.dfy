/** Audio operations with their access rules (server/app/services/audio_service.py).
    An image carries at most one audio recording; only the image's creator may
    add, change or delete it, and anyone with access to the image's album may
    read it. */
module AudioService {
  import opened Records
  import opened Access
  import opened AlbumMemberRepository
  import opened AlbumRepository
  import opened ImageRepository
  import opened AudioRepository
  import opened AlbumService
  import opened ImageService

  const AudioNotFound := Failure(NotFound, "Audio not found")
  const AssociatedImageNotFound := Failure(NotFound, "Associated image not found")
  const NoAudioAccess := Failure(Forbidden, "You don't have access to this audio")
  const OnlyCreatorAddsAudio := Failure(Forbidden, "Only the image creator can add audio")
  const AudioExists := Failure(BadRequest, "Audio already exists for this image. Use update endpoint to modify it.")
  const AudioCreateFailed := Failure(Internal, "Failed to create audio")
  const NoAudioForImage := Failure(NotFound, "No audio found for this image")
  const OnlyCreatorUpdatesAudio := Failure(Forbidden, "Only the image creator can update the audio")
  const AudioUpdateFailed := Failure(Internal, "Failed to update audio")
  const OnlyCreatorDeletesAudio := Failure(Forbidden, "Only the image creator can delete the audio")
  const AudioDeleteFailed := Failure(Internal, "Failed to delete audio")

  /** The audio table is well formed and no image has two recordings. */
  ghost predicate AudioTables(images: ImageTable, audio: AudioTable)
    reads images, audio
  {
    images.Valid() && audio.Valid() && AtMostOnePerImage(audio.rows)
  }

  /** create_audio: the image's creator adds its one recording. An image that
      already has audio is refused, so no image ever gets a second one. */
  method CreateAudio(images: ImageTable, audio: AudioTable, imageId: Id, url: string, userId: Id, fault: bool)
    returns (r: Result<AudioRow>)
    requires AudioTables(images, audio)
    modifies audio
    ensures AudioTables(images, audio)
    ensures var found := images.GetImageById(imageId);
            && (found.None? ==> r == Err(ImageNotFound))
            && (found.Some? && !IsCreator(found.value, userId) ==> r == Err(OnlyCreatorAddsAudio))
            && (found.Some? && IsCreator(found.value, userId) ==>
                  if exists x :: x in old(audio.rows) && x.imageId == imageId then r == Err(AudioExists)
                  else if fault then r == Err(AudioCreateFailed)
                  else r.Ok?)
    ensures r.Ok? ==> r.value.imageId == imageId && r.value.url == url
    ensures r.Ok? ==> audio.rows == old(audio.rows) + [r.value]
    ensures r.Err? ==> audio.rows == old(audio.rows)
  {
    var image := images.GetImageById(imageId);
    if image.None? {
      r := Err(ImageNotFound);
      return;
    }
    if image.value.userId != userId {
      r := Err(OnlyCreatorAddsAudio);
      return;
    }
    var existing := audio.GetAudioByImageId(imageId);
    if existing.Some? {
      r := Err(AudioExists);
      return;
    }
    var created := audio.CreateAudio(imageId, url, fault);
    if created.None? {
      r := Err(AudioCreateFailed);
      return;
    }
    r := Ok(created.value);
  }

  /** The image's album is still in the albums table. */
  ghost predicate HasAlbum(albums: AlbumTable, image: ImageRow)
    reads albums
  {
    exists a :: a in albums.rows && a.id == image.albumId
  }

  /** get_audio: the recording when its image and that image's album exist and
      the user can access the album; each missing link has its own 404. */
  function GetAudio(albums: AlbumTable, members: MemberTable, images: ImageTable, audio: AudioTable, audioId: Id, userId: Id)
    : (r: Result<AudioRow>)
    reads albums, members, images, audio
    requires albums.Valid() && images.Valid() && audio.Valid()
    ensures r == Err(AudioNotFound) <==> forall x :: x in audio.rows ==> x.id != audioId
    ensures r == Err(AssociatedImageNotFound) <==>
              exists x :: x in audio.rows && x.id == audioId && forall i :: i in images.rows ==> i.id != x.imageId
    ensures r.Ok? <==>
              exists x, i :: x in audio.rows && x.id == audioId && i in images.rows && i.id == x.imageId
                             && CanAccessImage(albums, members, i, userId)
    ensures r.Ok? ==> r.value in audio.rows && r.value.id == audioId
    ensures r.Err? ==> r.error in {AudioNotFound, AssociatedImageNotFound, AlbumNotFound, NoAudioAccess}
  {
    match audio.GetAudioById(audioId)
    case None => Err(AudioNotFound)
    case Some(recording) =>
      AudioIdsUnique(audio.rows, recording);
      match images.GetImageById(recording.imageId)
      case None => Err(AssociatedImageNotFound)
      case Some(image) =>
        ImageIdsUnique(images.rows, image);
        match albums.GetAlbumById(image.albumId)
        case None => Err(AlbumNotFound)
        case Some(album) =>
          AlbumIdsUnique(albums.rows, album);
          var isOwner := album.ownerId == userId;
          var isMember := members.IsAlbumMember(image.albumId, userId);
          if !(isOwner || isMember) then Err(NoAudioAccess) else Ok(recording)
  }

  /** Once the recording and its image are found, get_audio tells a missing
      album (404) from a user without access (403). */
  lemma GetAudioAlbumChecks(albums: AlbumTable, members: MemberTable, images: ImageTable, audio: AudioTable, audioId: Id, userId: Id)
    requires albums.Valid() && images.Valid() && audio.Valid()
    ensures var r := GetAudio(albums, members, images, audio, audioId, userId);
            r == Err(AlbumNotFound) <==>
              exists x, i :: x in audio.rows && x.id == audioId && i in images.rows && i.id == x.imageId
                             && !HasAlbum(albums, i)
    ensures var r := GetAudio(albums, members, images, audio, audioId, userId);
            r == Err(NoAudioAccess) <==>
              exists x, i :: x in audio.rows && x.id == audioId && i in images.rows && i.id == x.imageId
                             && HasAlbum(albums, i) && !CanAccessImage(albums, members, i, userId)
  {
    match audio.GetAudioById(audioId)
    case None =>
    case Some(recording) =>
      AudioIdsUnique(audio.rows, recording);
      match images.GetImageById(recording.imageId)
      case None =>
      case Some(image) =>
        ImageIdsUnique(images.rows, image);
        match albums.GetAlbumById(image.albumId)
        case None =>
        case Some(album) =>
          AlbumIdsUnique(albums.rows, album);
  }

  /** get_audio_by_image: the image's access checks (those of get_image), then
      its recording; with at most one recording per image, that one. */
  function GetAudioByImage(albums: AlbumTable, members: MemberTable, images: ImageTable, audio: AudioTable, imageId: Id, userId: Id)
    : (r: Result<AudioRow>)
    reads albums, members, images, audio
    requires albums.Valid() && images.Valid()
    ensures GetImage(albums, members, images, imageId, userId).Err? ==>
              r == Err(GetImage(albums, members, images, imageId, userId).error)
    ensures r == Err(NoAudioForImage) <==>
              && (exists i :: i in images.rows && i.id == imageId && CanAccessImage(albums, members, i, userId))
              && (forall x :: x in audio.rows ==> x.imageId != imageId)
    ensures r.Ok? <==>
              && (exists i :: i in images.rows && i.id == imageId && CanAccessImage(albums, members, i, userId))
              && (exists x :: x in audio.rows && x.imageId == imageId)
    ensures r.Ok? ==> r.value in audio.rows && r.value.imageId == imageId
    ensures r.Ok? && AtMostOnePerImage(audio.rows) ==> forall x :: x in audio.rows && x.imageId == imageId ==> x == r.value
  {
    match GetImage(albums, members, images, imageId, userId)
    case Err(e) => Err(e)
    case Ok(_) =>
      match audio.GetAudioByImageId(imageId)
      case None => Err(NoAudioForImage)
      case Some(recording) =>
        OnePerImage(audio.rows, recording);
        Ok(recording)
  }

  /** A user who cannot access the image's album is refused before the audio is
      looked up, so the answer is 403 whether or not the image has audio. */
  lemma AudioByImageChecksAccessFirst(albums: AlbumTable, members: MemberTable, images: ImageTable, audio: AudioTable, imageId: Id, userId: Id)
    requires albums.Valid() && images.Valid()
    requires exists i :: && i in images.rows && i.id == imageId && !CanAccessImage(albums, members, i, userId)
                         && exists a :: a in albums.rows && a.id == i.albumId
    ensures GetAudioByImage(albums, members, images, audio, imageId, userId) == Err(NoImageAccess)
  {
    var i :| && i in images.rows && i.id == imageId && !CanAccessImage(albums, members, i, userId)
             && exists a :: a in albums.rows && a.id == i.albumId;
    ImageIdsUnique(images.rows, i);
  }

  /** update_audio: only the creator of the recording's image may change it; with
      a url only the url changes, without one the recording comes back as is. */
  method UpdateAudio(images: ImageTable, audio: AudioTable, audioId: Id, url: Option<string>, userId: Id)
    returns (r: Result<AudioRow>)
    requires AudioTables(images, audio)
    modifies audio
    ensures AudioTables(images, audio)
    ensures var found := old(audio.GetAudioById(audioId));
            && (found.None? ==> r == Err(AudioNotFound))
            && (found.Some? && images.GetImageById(found.value.imageId).None? ==> r == Err(AssociatedImageNotFound))
            && (found.Some? && images.GetImageById(found.value.imageId).Some? ==>
                  var image := images.GetImageById(found.value.imageId).value;
                  if !IsCreator(image, userId) then r == Err(OnlyCreatorUpdatesAudio)
                  else r == Ok(if url.Some? then found.value.(url := url.value) else found.value))
    ensures r.Ok? && url.Some? ==> audio.rows == WithUrl(old(audio.rows), audioId, url.value)
    ensures !(r.Ok? && url.Some?) ==> audio.rows == old(audio.rows)
  {
    var recording := audio.GetAudioById(audioId);
    if recording.None? {
      r := Err(AudioNotFound);
      return;
    }
    var image := images.GetImageById(recording.value.imageId);
    if image.None? {
      r := Err(AssociatedImageNotFound);
      return;
    }
    if image.value.userId != userId {
      r := Err(OnlyCreatorUpdatesAudio);
      return;
    }
    AudioIdsUnique(audio.rows, recording.value);
    var updated := audio.UpdateAudio(audioId, url);
    if updated.None? {
      assert false;
      r := Err(AudioUpdateFailed);
      return;
    }
    r := Ok(updated.value);
  }

  /** delete_audio: only the creator of the recording's image may delete it. */
  method DeleteAudio(images: ImageTable, audio: AudioTable, audioId: Id, userId: Id) returns (r: Result<()>)
    requires AudioTables(images, audio)
    modifies audio
    ensures AudioTables(images, audio)
    ensures var found := old(audio.GetAudioById(audioId));
            && (found.None? ==> r == Err(AudioNotFound))
            && (found.Some? && images.GetImageById(found.value.imageId).None? ==> r == Err(AssociatedImageNotFound))
            && (found.Some? && images.GetImageById(found.value.imageId).Some? ==>
                  r == if IsCreator(images.GetImageById(found.value.imageId).value, userId) then Ok(())
                       else Err(OnlyCreatorDeletesAudio))
    ensures r.Ok? ==> forall x :: x in audio.rows <==> x in old(audio.rows) && x.id != audioId
    ensures r.Err? ==> audio.rows == old(audio.rows)
  {
    var recording := audio.GetAudioById(audioId);
    if recording.None? {
      r := Err(AudioNotFound);
      return;
    }
    var image := images.GetImageById(recording.value.imageId);
    if image.None? {
      r := Err(AssociatedImageNotFound);
      return;
    }
    if image.value.userId != userId {
      r := Err(OnlyCreatorDeletesAudio);
      return;
    }
    var success := audio.DeleteAudio(audioId);
    if !success {
      assert false;
      r := Err(AudioDeleteFailed);
      return;
    }
    r := Ok(());
  }
}
