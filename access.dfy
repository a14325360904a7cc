/** The two authorization predicates every service composes: album access
    (owner or member) and authorship of an image. */
module Access {
  import opened Records

  /** The membership relation as a set of (album_id, user_id) pairs. */
  type Membership = set<(Id, Id)>

  /** A user may read an album and add images to it when they own it or hold a
      membership row for it. */
  predicate CanAccessAlbum(album: AlbumRow, members: Membership, userId: Id)
  {
    album.ownerId == userId || (album.id, userId) in members
  }

  /** Only the user who created an image may change it, delete it, or manage its
      audio; owning or belonging to the album is not enough. */
  predicate IsCreator(image: ImageRow, userId: Id)
  {
    image.userId == userId
  }
}
