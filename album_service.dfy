/** Album operations with their access rules (server/app/services/album_service.py).
    Each operation looks the album up first (404 when it is missing), then checks
    the caller's role (403), then acts. */
module AlbumService {
  import opened Records
  import opened Access
  import opened AlbumMemberRepository
  import opened AlbumRepository

  const AlbumNotFound := Failure(NotFound, "Album not found")
  const CreateFailed := Failure(Internal, "Failed to create album")
  const NoAccess := Failure(Forbidden, "You don't have access to this album")
  const OnlyOwnerUpdates := Failure(Forbidden, "Only the album owner can update the album")
  const UpdateFailed := Failure(Internal, "Failed to update album")
  const OnlyOwnerDeletes := Failure(Forbidden, "Only the album owner can delete the album")
  const DeleteFailed := Failure(Internal, "Failed to delete album")
  const OnlyOwnerAdds := Failure(Forbidden, "Only the album owner can add members")
  const OwnerAlreadyMember := Failure(BadRequest, "Album owner is already a member")
  const AlreadyMember := Failure(BadRequest, "User is already a member of this album")
  const OnlyOwnerRemoves := Failure(Forbidden, "Only the album owner can remove members")
  const CannotRemoveOwner := Failure(BadRequest, "Cannot remove the album owner")
  const MemberNotFound := Failure(NotFound, "Member not found in album")

  /** Every membership pair names an album id the albums table has already
      issued. Album ids are never reused, so a freshly created album has no
      members but the ones added for it. */
  ghost predicate MembersReferenceIssuedAlbums(albums: AlbumTable, members: MemberTable)
    reads albums, members
  {
    forall p :: p in members.Pairs() ==> p.0 < albums.nextId
  }

  /** The tables the album operations work on are well formed. */
  ghost predicate Tables(albums: AlbumTable, members: MemberTable)
    reads albums, members
  {
    albums.Valid() && members.Valid() && MembersReferenceIssuedAlbums(albums, members)
  }

  /** create_album: inserts the album, then adds its owner as a member. The new
      album's only member is its owner; on a failed insert nothing changes. */
  method CreateAlbum(albums: AlbumTable, members: MemberTable, name: string, ownerId: Id, fault: bool)
    returns (r: Result<AlbumRow>)
    requires Tables(albums, members)
    modifies albums, members
    ensures Tables(albums, members)
    ensures fault ==> r == Err(CreateFailed) && albums.rows == old(albums.rows) && members.rows == old(members.rows)
    ensures !fault ==> r.Ok? && r.value.name == name && r.value.ownerId == ownerId
    ensures !fault ==> albums.rows == old(albums.rows) + [r.value]
    ensures r.Ok? ==> forall a :: a in old(albums.rows) ==> a.id != r.value.id
    ensures r.Ok? ==> members.rows == old(members.rows) + [MemberRow(old(members.nextId), r.value.id, ownerId, old(members.clock))]
    ensures r.Ok? ==> members.Pairs() == old(members.Pairs()) + {(r.value.id, ownerId)}
    ensures r.Ok? ==> forall u :: (r.value.id, u) in members.Pairs() <==> u == ownerId
  {
    var album := albums.CreateAlbum(name, ownerId, fault);
    if album.None? {
      r := Err(CreateFailed);
      return;
    }
    var _ := members.AddAlbumMember(album.value.id, ownerId);
    r := Ok(album.value);
  }

  /** get_album: the album when the caller owns it or is a member; 404 before 403. */
  function GetAlbum(albums: AlbumTable, members: MemberTable, albumId: Id, userId: Id): (r: Result<AlbumRow>)
    reads albums, members
    requires albums.Valid()
    ensures r == Err(AlbumNotFound) <==> forall a :: a in albums.rows ==> a.id != albumId
    ensures r == Err(NoAccess) <==>
              exists a :: a in albums.rows && a.id == albumId && !CanAccessAlbum(a, members.Pairs(), userId)
    ensures r.Ok? <==>
              exists a :: a in albums.rows && a.id == albumId && CanAccessAlbum(a, members.Pairs(), userId)
    ensures r.Ok? ==> r.value in albums.rows && r.value.id == albumId
  {
    match albums.GetAlbumById(albumId)
    case None => Err(AlbumNotFound)
    case Some(album) =>
      AlbumIdsUnique(albums.rows, album);
      var isOwner := album.ownerId == userId;
      var isMember := members.IsAlbumMember(albumId, userId);
      if !(isOwner || isMember) then Err(NoAccess) else Ok(album)
  }

  /** update_album: only the owner may rename; with no new name the album comes
      back unchanged, otherwise exactly its name changes. */
  method UpdateAlbum(albums: AlbumTable, albumId: Id, name: Option<string>, userId: Id) returns (r: Result<AlbumRow>)
    requires albums.Valid()
    modifies albums
    ensures albums.Valid() && albums.nextId == old(albums.nextId) && albums.clock == old(albums.clock)
    ensures var found := old(albums.GetAlbumById(albumId));
            && (found.None? ==> r == Err(AlbumNotFound))
            && (found.Some? && found.value.ownerId != userId ==> r == Err(OnlyOwnerUpdates))
            && (found.Some? && found.value.ownerId == userId && name.None? ==> r == Ok(found.value))
            && (found.Some? && found.value.ownerId == userId && name.Some? ==> r == Ok(found.value.(name := name.value)))
    ensures r.Ok? && name.Some? ==> albums.rows == Renamed(old(albums.rows), albumId, name.value)
    ensures !(r.Ok? && name.Some?) ==> albums.rows == old(albums.rows)
  {
    var album := albums.GetAlbumById(albumId);
    if album.None? {
      r := Err(AlbumNotFound);
      return;
    }
    if album.value.ownerId != userId {
      r := Err(OnlyOwnerUpdates);
      return;
    }
    if name.None? {
      r := Ok(album.value);
      return;
    }
    AlbumIdsUnique(albums.rows, album.value);
    var updated := albums.UpdateAlbum(albumId, name.value);
    if updated.None? {
      assert false;
      r := Err(UpdateFailed);
      return;
    }
    r := Ok(updated.value);
  }

  /** delete_album: only the owner may delete; afterwards no row has the id.
      Member rows, images and audio of the album stay behind. */
  method DeleteAlbum(albums: AlbumTable, albumId: Id, userId: Id) returns (r: Result<()>)
    requires albums.Valid()
    modifies albums
    ensures albums.Valid() && albums.nextId == old(albums.nextId) && albums.clock == old(albums.clock)
    ensures var found := old(albums.GetAlbumById(albumId));
            && (found.None? ==> r == Err(AlbumNotFound))
            && (found.Some? && found.value.ownerId != userId ==> r == Err(OnlyOwnerDeletes))
            && (found.Some? && found.value.ownerId == userId ==> r == Ok(()))
    ensures r.Ok? ==> forall a :: a in albums.rows <==> a in old(albums.rows) && a.id != albumId
    ensures r.Err? ==> albums.rows == old(albums.rows)
  {
    var album := albums.GetAlbumById(albumId);
    if album.None? {
      r := Err(AlbumNotFound);
      return;
    }
    if album.value.ownerId != userId {
      r := Err(OnlyOwnerDeletes);
      return;
    }
    var success := albums.DeleteAlbum(albumId);
    if !success {
      assert false;
      r := Err(DeleteFailed);
      return;
    }
    r := Ok(());
  }

  /** get_user_albums: the albums the user owns or belongs to, each once, newest first. */
  function GetUserAlbums(albums: AlbumTable, members: MemberTable, userId: Id): (r: seq<AlbumRow>)
    reads albums, members
    requires albums.Valid()
    ensures forall a :: a in r <==> a in albums.rows && CanAccessAlbum(a, members.Pairs(), userId)
    ensures AlbumsNewestFirst(r)
  {
    Visible(albums.rows, members.Pairs(), userId)
  }

  /** add_album_member: only the owner may add; adding the owner is refused, and
      so is a user who is already a member. On success the user gains access. */
  method AddAlbumMember(albums: AlbumTable, members: MemberTable, albumId: Id, memberUserId: Id, userId: Id)
    returns (r: Result<MemberRow>)
    requires Tables(albums, members)
    modifies members
    ensures Tables(albums, members)
    ensures var found := albums.GetAlbumById(albumId);
            && (found.None? ==> r == Err(AlbumNotFound))
            && (found.Some? && found.value.ownerId != userId ==> r == Err(OnlyOwnerAdds))
            && (found.Some? && found.value.ownerId == userId && memberUserId == userId ==> r == Err(OwnerAlreadyMember))
            && (found.Some? && found.value.ownerId == userId && memberUserId != userId ==>
                  if (albumId, memberUserId) in old(members.Pairs()) then r == Err(AlreadyMember)
                  else r.Ok? && r.value.albumId == albumId && r.value.userId == memberUserId)
    ensures r.Ok? ==> members.rows == old(members.rows) + [r.value]
    ensures r.Ok? ==> members.Pairs() == old(members.Pairs()) + {(albumId, memberUserId)}
    ensures r.Ok? ==> CanAccessAlbum(albums.GetAlbumById(albumId).value, members.Pairs(), memberUserId)
    ensures r.Err? ==> members.rows == old(members.rows)
  {
    var album := albums.GetAlbumById(albumId);
    if album.None? {
      r := Err(AlbumNotFound);
      return;
    }
    if album.value.ownerId != userId {
      r := Err(OnlyOwnerAdds);
      return;
    }
    if album.value.ownerId == memberUserId {
      r := Err(OwnerAlreadyMember);
      return;
    }
    var member := members.AddAlbumMember(albumId, memberUserId);
    if member.None? {
      r := Err(AlreadyMember);
      return;
    }
    r := Ok(member.value);
  }

  /** remove_album_member: only the owner may remove, and never themselves; a
      user who is not a member gives 404. Nobody else's access changes. */
  method RemoveAlbumMember(albums: AlbumTable, members: MemberTable, albumId: Id, memberUserId: Id, userId: Id)
    returns (r: Result<()>)
    requires Tables(albums, members)
    modifies members
    ensures Tables(albums, members)
    ensures var found := albums.GetAlbumById(albumId);
            && (found.None? ==> r == Err(AlbumNotFound))
            && (found.Some? && found.value.ownerId != userId ==> r == Err(OnlyOwnerRemoves))
            && (found.Some? && found.value.ownerId == userId && memberUserId == userId ==> r == Err(CannotRemoveOwner))
            && (found.Some? && found.value.ownerId == userId && memberUserId != userId ==>
                  r == if (albumId, memberUserId) in old(members.Pairs()) then Ok(()) else Err(MemberNotFound))
    ensures members.Pairs() == if r.Ok? then old(members.Pairs()) - {(albumId, memberUserId)} else old(members.Pairs())
    ensures r.Err? ==> members.rows == old(members.rows)
    ensures r.Ok? ==> exists k :: && 0 <= k < |old(members.rows)| && old(members.rows)[k].albumId == albumId
                                  && old(members.rows)[k].userId == memberUserId
                                  && members.rows == RemoveAt(old(members.rows), k)
    ensures r.Ok? ==> !CanAccessAlbum(albums.GetAlbumById(albumId).value, members.Pairs(), memberUserId)
    ensures forall a: AlbumRow, u: Id :: u != memberUserId ==>
              CanAccessAlbum(a, members.Pairs(), u) == CanAccessAlbum(a, old(members.Pairs()), u)
  {
    var album := albums.GetAlbumById(albumId);
    if album.None? {
      r := Err(AlbumNotFound);
      return;
    }
    if album.value.ownerId != userId {
      r := Err(OnlyOwnerRemoves);
      return;
    }
    if album.value.ownerId == memberUserId {
      r := Err(CannotRemoveOwner);
      return;
    }
    var success := members.RemoveAlbumMember(albumId, memberUserId);
    if !success {
      r := Err(MemberNotFound);
      return;
    }
    r := Ok(());
  }
}
