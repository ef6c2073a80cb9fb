/** The `thumbnailUploader` route of UploadThing: its middleware authorises the upload, and its
    completion hook stores the uploaded file's URL as the video's thumbnail. */
module UploadThing {
  import opened Wrappers
  import opened Schema
  import opened Table
  import opened Db

  /** What the middleware hands on to the completion hook: the local user and the input. */
  datatype Metadata = Metadata(user: User, videoId: Uuid)

  const Unauthorized := "Unauthorized"

  /** The middleware: `clerkUserId` is the Clerk session's user id, absent when signed out.
      The upload is allowed only for a signed-in user who has a local `users` row. */
  function Authorize(users: seq<User>, clerkUserId: Option<string>, videoId: Uuid)
    : (r: Result<Metadata, string>)
    ensures r.Err? <==>
      !Truthy(clerkUserId) || forall u :: u in users ==> u.clerkId != clerkUserId.value
    ensures r.Err? ==> r.error == Unauthorized
    ensures r.Ok? ==>
      && r.value.user in users && r.value.user.clerkId == clerkUserId.value
      && r.value.videoId == videoId
  {
    if !Truthy(clerkUserId) then Err(Unauthorized)
    else
      var found := UsersWithClerkId(users, clerkUserId.value);
      if |found| == 0 then
        assert found == [];
        Err(Unauthorized)
      else
        assert found[0] in found;
        Ok(Metadata(found[0], videoId))
  }

  /** With `clerk_id` unique, the user the middleware hands on is the only one with that id. */
  lemma AuthorizedUserIsUnique(users: seq<User>, clerkUserId: Option<string>, videoId: Uuid)
    requires UniqueClerkIds(users)
    requires Authorize(users, clerkUserId, videoId).Ok?
    ensures forall u :: u in users && u.clerkId == clerkUserId.value ==>
      u == Authorize(users, clerkUserId, videoId).value.user
  {
    var user := Authorize(users, clerkUserId, videoId).value.user;
    forall u | u in users && u.clerkId == clerkUserId.value ensures u == user {
      var i :| 0 <= i < |users| && users[i] == u;
      var j :| 0 <= j < |users| && users[j] == user;
      assert i == j;
    }
  }

  /** The completion hook: `fileUrl` is the stored file's URL (`file.ufsUrl`). */
  method OnUploadComplete(db: Database, metadata: Metadata, fileUrl: string)
    returns (uploadedBy: Uuid)
    requires db.Valid()
    modifies db
    ensures db.Valid() && db.users == old(db.users)
    ensures db.videos
      == UpdateRows(old(db.videos), Owned(metadata.videoId, metadata.user.id), ThumbnailUrlOnly(fileUrl))
    ensures uploadedBy == metadata.user.id
  {
    var _ := db.UpdateVideos(Owned(metadata.videoId, metadata.user.id), ThumbnailUrlOnly(fileUrl));
    uploadedBy := metadata.user.id;
  }

  /** Completion writes only `thumbnailUrl`, and only on the authorised user's video with that
      id, which it gives the file's URL. */
  lemma CompletionSetsThumbnailUrl(rows: seq<Video>, metadata: Metadata, fileUrl: string)
    ensures var w := Owned(metadata.videoId, metadata.user.id);
      var after := UpdateRows(rows, w, ThumbnailUrlOnly(fileUrl));
      && ChangedOnly(rows, after, w, {ThumbnailUrl})
      && forall i :: 0 <= i < |rows| && rows[i].id == metadata.videoId
                       && rows[i].userId == metadata.user.id ==>
           after[i].thumbnailUrl == Some(fileUrl)
  {
    var w := Owned(metadata.videoId, metadata.user.id);
    var a := ThumbnailUrlOnly(fileUrl);
    UrlWrittenOnMatches(rows, w, fileUrl);
    assert Touches(a) == {ThumbnailUrl};
    UpdateRowsFrame(rows, w, a);
  }

  lemma UrlWrittenOnMatches(rows: seq<Video>, w: Where, fileUrl: string)
    ensures var after := UpdateRows(rows, w, ThumbnailUrlOnly(fileUrl));
      forall i :: 0 <= i < |rows| && Matches(w, rows[i]) ==> after[i].thumbnailUrl == Some(fileUrl)
  {
  }

  /** Since ids are unique, completion changes at most one row. */
  lemma CompletionChangesAtMostOneRow(rows: seq<Video>, metadata: Metadata, fileUrl: string)
    requires UniqueIds(rows)
    ensures var after := UpdateRows(rows, Owned(metadata.videoId, metadata.user.id),
                                    ThumbnailUrlOnly(fileUrl));
      forall i, j :: 0 <= i < j < |rows| ==> after[i] == rows[i] || after[j] == rows[j]
  {
    var w := Owned(metadata.videoId, metadata.user.id);
    var after := UpdateRows(rows, w, ThumbnailUrlOnly(fileUrl));
    forall i, j | 0 <= i < j < |rows| ensures after[i] == rows[i] || after[j] == rows[j] {
      if Matches(w, rows[i]) {
        assert rows[i].id != rows[j].id;
      }
    }
  }
}
