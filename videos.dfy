/** The creator's mutations of `videosRouter`: `update`, `remove`, `create` and
    `restoreThumbnail`. Each is scoped to the caller's own rows through `(id, userId)`. */
module VideosRouter {
  import opened Wrappers
  import opened Schema
  import opened Table
  import opened Db

  /** The tRPC error codes these procedures raise. */
  datatype Error = NotFound | BadRequest | InternalServerError

  /** The input of `update`: every key is optional, and an absent key is not written. */
  datatype UpdateInput = UpdateInput(
    id: Option<Uuid>,
    title: Patch<string>,
    description: Patch<Option<string>>,
    categoryId: Patch<Option<Uuid>>,
    visibility: Patch<Visibility>)

  /** What `mux.video.uploads.create` gives back: the upload id and the direct-upload URL. */
  datatype MuxUpload = MuxUpload(id: string, url: string)

  /** What `create` returns: the new row and the URL the client uploads the file to. */
  datatype Created = Created(video: Video, url: string)

  /** A file stored by UploadThing: its key and its URL. */
  datatype UploadedFile = UploadedFile(key: string, url: string)

  /** The columns `update` may write. */
  const EditableColumns: set<Field> := {Title, Description, CategoryId, Visibility, UpdatedAt}

  /** The thumbnail columns `restoreThumbnail` writes. */
  const ThumbnailColumns: set<Field> := {ThumbnailUrl, ThumbnailKey}

  // ---------------------------------------------------------------------------------------
  // update

  function DetailsOf(input: UpdateInput, now: int): Assignment
  {
    Details(input.title, input.description, input.categoryId, input.visibility, now)
  }

  /** `update`: the result and the table afterwards. */
  function UpdateSpec(rows: seq<Video>, userId: Uuid, input: UpdateInput, now: int)
    : (Result<Video, Error>, seq<Video>)
  {
    if input.id.None? then (Err(BadRequest), rows)
    else
      var w := Owned(input.id.value, userId);
      var updated := Returning(rows, w, DetailsOf(input, now));
      var after := UpdateRows(rows, w, DetailsOf(input, now));
      if |updated| == 0 then (Err(NotFound), after) else (Ok(updated[0]), after)
  }

  method Update(db: Database, userId: Uuid, input: UpdateInput, now: int)
    returns (r: Result<Video, Error>)
    requires db.Valid()
    modifies db
    ensures db.Valid() && db.users == old(db.users)
    ensures (r, db.videos) == UpdateSpec(old(db.videos), userId, input, now)
  {
    if input.id.None? {
      return Err(BadRequest);
    }
    var updated := db.UpdateVideos(Owned(input.id.value, userId), DetailsOf(input, now));
    if |updated| == 0 {
      return Err(NotFound);
    }
    return Ok(updated[0]);
  }

  /** Without an id, `update` fails with BAD_REQUEST and writes nothing. */
  lemma UpdateWithoutId(rows: seq<Video>, userId: Uuid, input: UpdateInput, now: int)
    requires input.id.None?
    ensures UpdateSpec(rows, userId, input, now) == (Err(BadRequest), rows)
  {
  }

  /** `update` fails with NOT_FOUND exactly when the caller owns no row with that id, and then
      the table is unchanged. */
  lemma UpdateNotFound(rows: seq<Video>, userId: Uuid, input: UpdateInput, now: int)
    requires input.id.Some?
    ensures var (r, after) := UpdateSpec(rows, userId, input, now);
      && (r == Err(NotFound) <==> forall v :: v in rows ==> !(v.id == input.id.value && v.userId == userId))
      && (r.Err? ==> after == rows)
  {
    var w := Owned(input.id.value, userId);
    var found := MatchingRows(rows, w);
    if found == [] {
      UpdateRowsNoMatch(rows, w, DetailsOf(input, now));
    } else {
      assert found[0] in found;
    }
  }

  /** `update` writes only the editable columns and `updatedAt`, and only on the caller's row
      with that id; the row it returns is that row as written, with each absent key keeping
      its old value. */
  lemma UpdateChangesOwnedRow(rows: seq<Video>, userId: Uuid, input: UpdateInput, now: int)
    requires UniqueIds(rows) && input.id.Some?
    ensures var (r, after) := UpdateSpec(rows, userId, input, now);
      var w := Owned(input.id.value, userId);
      && ChangedOnly(rows, after, w, EditableColumns)
      && UniqueIds(after)
      && (r.Ok? ==>
            exists v :: v in rows && v.id == input.id.value && v.userId == userId
              && r.value == v.(title := PatchOr(input.title, v.title),
                               description := PatchOr(input.description, v.description),
                               categoryId := PatchOr(input.categoryId, v.categoryId),
                               visibility := PatchOr(input.visibility, v.visibility),
                               updatedAt := now))
      && (r.Ok? ==> forall i :: 0 <= i < |rows| && Matches(w, rows[i]) ==> after[i] == r.value)
  {
    var w := Owned(input.id.value, userId);
    var a := DetailsOf(input, now);
    UpdateRowsFrame(rows, w, a);
    var after := UpdateRows(rows, w, a);
    forall i | 0 <= i < |rows| && Matches(w, rows[i])
      ensures SameExcept(after[i], rows[i], EditableColumns)
    {
      assert Touches(a) <= EditableColumns;
    }
    var updated := Returning(rows, w, a);
    if |updated| > 0 {
      var found := MatchingRows(rows, w);
      assert found[0] in found;
      ReturningApplies(rows, w, a);
      assert updated[0] == Apply(a, found[0]);
      OwnedSelectsAtMostOne(rows, input.id.value, userId);
      forall i | 0 <= i < |rows| && Matches(w, rows[i]) ensures after[i] == updated[0] {
        assert rows[i] in found;
        assert found == [found[0]];
      }
    }
  }

  // ---------------------------------------------------------------------------------------
  // remove

  /** `remove`: the deleted row and the table afterwards. */
  function RemoveSpec(rows: seq<Video>, userId: Uuid, id: Uuid): (Result<Video, Error>, seq<Video>)
  {
    var w := Owned(id, userId);
    var removed := MatchingRows(rows, w);
    var after := DeleteRows(rows, w);
    if |removed| == 0 then (Err(NotFound), after) else (Ok(removed[0]), after)
  }

  method Remove(db: Database, userId: Uuid, id: Uuid) returns (r: Result<Video, Error>)
    requires db.Valid()
    modifies db
    ensures db.Valid() && db.users == old(db.users)
    ensures (r, db.videos) == RemoveSpec(old(db.videos), userId, id)
  {
    var removed := db.DeleteVideos(Owned(id, userId));
    if |removed| == 0 {
      return Err(NotFound);
    }
    return Ok(removed[0]);
  }

  /** `remove` deletes exactly the caller's row with that id and returns it; every other row
      stays. Without such a row it fails with NOT_FOUND and deletes nothing. */
  lemma RemoveDeletesOwnedRow(rows: seq<Video>, userId: Uuid, id: Uuid)
    requires UniqueIds(rows)
    ensures var (r, after) := RemoveSpec(rows, userId, id);
      && (r.Err? <==> forall v :: v in rows ==> !(v.id == id && v.userId == userId))
      && (r.Err? ==> r.error == NotFound && after == rows)
      && (r.Ok? ==>
            && r.value in rows && r.value.id == id && r.value.userId == userId
            && multiset(after) + multiset{r.value} == multiset(rows)
            && forall v :: v in after <==> v in rows && v.id != id)
  {
    var w := Owned(id, userId);
    var removed := MatchingRows(rows, w);
    DeleteRowsSplit(rows, w);
    OwnedSelectsAtMostOne(rows, id, userId);
    if |removed| == 0 {
      assert removed == [];
      DeleteRowsNoMatch(rows, w);
    } else {
      assert removed == [removed[0]];
      assert removed[0] in removed;
      forall v | v in rows && v.id == id ensures v == removed[0] {
        var i :| 0 <= i < |rows| && rows[i] == v;
        var j :| 0 <= j < |rows| && rows[j] == removed[0];
        assert i == j;
      }
    }
  }

  // ---------------------------------------------------------------------------------------
  // create

  /** The row `create` inserts: the caller's, titled "Untitled", waiting for the upload with
      that id; every other column takes its default. */
  function NewVideo(id: Uuid, userId: Uuid, uploadId: string, now: int): Video
  {
    Video(id, userId, "Untitled", None, None, Private, now, Some("waiting"), Some(uploadId),
          None, None, None, None, None, None, 0)
  }

  /** `create`: the database draws the new id (`newId`); a clash with an existing id fails the
      insert, which the procedure reports as INTERNAL_SERVER_ERROR. */
  function CreateSpec(rows: seq<Video>, userId: Uuid, newId: Uuid, now: int, upload: MuxUpload)
    : (Result<Created, Error>, seq<Video>)
  {
    var row := NewVideo(newId, userId, upload.id, now);
    if exists v :: v in rows && v.id == newId then (Err(InternalServerError), rows)
    else (Ok(Created(row, upload.url)), rows + [row])
  }

  method Create(db: Database, userId: Uuid, newId: Uuid, now: int, upload: MuxUpload)
    returns (r: Result<Created, Error>)
    requires db.Valid()
    modifies db
    ensures db.Valid() && db.users == old(db.users)
    ensures (r, db.videos) == CreateSpec(old(db.videos), userId, newId, now, upload)
  {
    var video := NewVideo(newId, userId, upload.id, now);
    var ok := db.InsertVideo(video);
    if !ok {
      return Err(InternalServerError);
    }
    return Ok(Created(video, upload.url));
  }

  /** A successful `create` appends one row owned by the caller, titled "Untitled", with status
      "waiting" and the Mux upload's id, returns it with the upload URL, and leaves every
      existing row as it was; the primary key stays unique. */
  lemma CreateAppendsRow(rows: seq<Video>, userId: Uuid, newId: Uuid, now: int, upload: MuxUpload)
    requires UniqueIds(rows)
    ensures var (r, after) := CreateSpec(rows, userId, newId, now, upload);
      && UniqueIds(after)
      && (r.Ok? <==> forall v :: v in rows ==> v.id != newId)
      && (r.Err? ==> after == rows)
      && (r.Ok? ==>
            && |after| == |rows| + 1 && after[..|rows|] == rows
            && var v := after[|rows|];
            && r.value.video == v && r.value.url == upload.url
            && v.userId == userId && v.title == "Untitled"
            && v.muxStatus == Some("waiting") && v.muxUploadId == Some(upload.id))
  {
    var (r, after) := CreateSpec(rows, userId, newId, now, upload);
    if r.Ok? {
      forall i, j | 0 <= i < j < |after| ensures after[i].id != after[j].id {
        if j == |rows| {
          assert after[i] == rows[i] && rows[i] in rows;
        }
      }
    }
  }

  // ---------------------------------------------------------------------------------------
  // restoreThumbnail

  /** The first write of `restoreThumbnail`: when the video has a stored thumbnail, its URL and
      key are cleared. */
  function Cleared(rows: seq<Video>, w: Where, clear: bool): seq<Video>
  {
    if clear then UpdateRows(rows, w, Thumbnail(None, None)) else rows
  }

  /** `restoreThumbnail`: `uploadFromUrl` stands for UploadThing's `uploadFilesFromUrl`, giving
      the stored file, or `None` when the upload returns no data. */
  function RestoreSpec(rows: seq<Video>, userId: Uuid, id: Uuid,
                       uploadFromUrl: string -> Option<UploadedFile>)
    : (Result<Video, Error>, seq<Video>)
  {
    var w := Owned(id, userId);
    var found := MatchingRows(rows, w);
    if |found| == 0 then (Err(NotFound), rows)
    else
      var existing := found[0];
      var cleared := Cleared(rows, w, Truthy(existing.thumbnailKey));
      if !Truthy(existing.muxPlaybackId) then (Err(BadRequest), cleared)
      else
        match uploadFromUrl(MuxThumbnailUrl(existing.muxPlaybackId.value))
        case None => (Err(InternalServerError), cleared)
        case Some(file) =>
          var a := Thumbnail(Some(file.url), Some(file.key));
          var updated := Returning(cleared, w, a);
          ClearedSelectsAsBefore(rows, w, Truthy(existing.thumbnailKey));
          (Ok(updated[0]), UpdateRows(cleared, w, a))
  }

  /** Clearing the thumbnail does not change which rows the owner's `where` selects. */
  lemma ClearedSelectsAsBefore(rows: seq<Video>, w: Where, clear: bool)
    requires w.Owned?
    ensures |MatchingRows(Cleared(rows, w, clear), w)| == |MatchingRows(rows, w)|
  {
    if clear {
      UpdatedRowsStillMatch(rows, w, Thumbnail(None, None));
    }
  }

  method RestoreThumbnail(db: Database, userId: Uuid, id: Uuid,
                          uploadFromUrl: string -> Option<UploadedFile>)
    returns (r: Result<Video, Error>)
    requires db.Valid()
    modifies db
    ensures db.Valid() && db.users == old(db.users)
    ensures (r, db.videos) == RestoreSpec(old(db.videos), userId, id, uploadFromUrl)
  {
    var w := Owned(id, userId);
    ghost var before := db.videos;
    var found := db.SelectVideos(w);
    if |found| == 0 {
      return Err(NotFound);
    }
    var existing := found[0];
    if Truthy(existing.thumbnailKey) {
      var _ := db.UpdateVideos(w, Thumbnail(None, None));
    }
    assert db.videos == Cleared(before, w, Truthy(existing.thumbnailKey));
    if !Truthy(existing.muxPlaybackId) {
      return Err(BadRequest);
    }
    var uploaded := uploadFromUrl(MuxThumbnailUrl(existing.muxPlaybackId.value));
    if uploaded.None? {
      return Err(InternalServerError);
    }
    var file := uploaded.value;
    ClearedSelectsAsBefore(before, w, Truthy(existing.thumbnailKey));
    var updated := db.UpdateVideos(w, Thumbnail(Some(file.url), Some(file.key)));
    return Ok(updated[0]);
  }

  /** The caller must own the video; otherwise NOT_FOUND and nothing is written. */
  lemma RestoreNotOwned(rows: seq<Video>, userId: Uuid, id: Uuid,
                        uploadFromUrl: string -> Option<UploadedFile>)
    requires forall v :: v in rows ==> !(v.id == id && v.userId == userId)
    ensures RestoreSpec(rows, userId, id, uploadFromUrl) == (Err(NotFound), rows)
  {
    NothingSelected(rows, Owned(id, userId));
  }

  /** When the video has a stored thumbnail but no playback id, the procedure fails with
      BAD_REQUEST, yet the clearing of the thumbnail it did first stays written. */
  lemma RestoreClearsBeforeBadRequest(rows: seq<Video>, userId: Uuid, id: Uuid,
                                      uploadFromUrl: string -> Option<UploadedFile>, v: Video)
    requires v in rows && v.id == id && v.userId == userId && UniqueIds(rows)
    requires Truthy(v.thumbnailKey) && !Truthy(v.muxPlaybackId)
    ensures var (r, after) := RestoreSpec(rows, userId, id, uploadFromUrl);
      && r == Err(BadRequest)
      && ChangedOnly(rows, after, Owned(id, userId), ThumbnailColumns)
      && forall i :: 0 <= i < |rows| && rows[i] == v ==>
           after[i].thumbnailKey == None && after[i].thumbnailUrl == None
  {
    var w := Owned(id, userId);
    OwnedRowIsFound(rows, userId, id, v);
    var after := Cleared(rows, w, true);
    assert RestoreSpec(rows, userId, id, uploadFromUrl) == (Err(BadRequest), after);
    assert Touches(Thumbnail(None, None)) == ThumbnailColumns;
    UpdateRowsFrame(rows, w, Thumbnail(None, None));
    forall i | 0 <= i < |rows| && rows[i] == v
      ensures after[i].thumbnailKey == None && after[i].thumbnailUrl == None
    {
      assert after[i] == Apply(Thumbnail(None, None), v);
    }
  }

  /** When the upload from Mux's thumbnail gives no data, the procedure fails with
      INTERNAL_SERVER_ERROR; the clearing it did first, when a key was stored, stays written. */
  lemma RestoreUploadFailsAfterClearing(rows: seq<Video>, userId: Uuid, id: Uuid,
                                        uploadFromUrl: string -> Option<UploadedFile>, v: Video)
    requires v in rows && v.id == id && v.userId == userId && UniqueIds(rows)
    requires Truthy(v.muxPlaybackId)
    requires uploadFromUrl(MuxThumbnailUrl(v.muxPlaybackId.value)).None?
    ensures var (r, after) := RestoreSpec(rows, userId, id, uploadFromUrl);
      && r == Err(InternalServerError)
      && ChangedOnly(rows, after, Owned(id, userId), ThumbnailColumns)
      && forall i :: 0 <= i < |rows| && rows[i] == v ==>
           after[i] == if Truthy(v.thumbnailKey) then v.(thumbnailUrl := None, thumbnailKey := None)
                       else v
  {
    var w := Owned(id, userId);
    var clear := Truthy(v.thumbnailKey);
    OwnedRowIsFound(rows, userId, id, v);
    ClearedKeepsOwnedRow(rows, w, clear, v);
    assert RestoreSpec(rows, userId, id, uploadFromUrl) == (Err(InternalServerError), Cleared(rows, w, clear));
    if clear {
      assert Touches(Thumbnail(None, None)) == ThumbnailColumns;
      UpdateRowsFrame(rows, w, Thumbnail(None, None));
    }
  }

  /** Without a stored thumbnail key and without a playback id, the procedure fails with
      BAD_REQUEST and writes nothing. */
  lemma RestoreBadRequestWithoutKey(rows: seq<Video>, userId: Uuid, id: Uuid,
                                    uploadFromUrl: string -> Option<UploadedFile>, v: Video)
    requires v in rows && v.id == id && v.userId == userId && UniqueIds(rows)
    requires !Truthy(v.thumbnailKey) && !Truthy(v.muxPlaybackId)
    ensures RestoreSpec(rows, userId, id, uploadFromUrl) == (Err(BadRequest), rows)
  {
    OwnedRowIsFound(rows, userId, id, v);
  }

  /** On success the owned row's thumbnail is the file uploaded from the Mux thumbnail of its
      playback id; only the two thumbnail columns of that row change, and the row returned is
      the row as written. */
  lemma RestoreSetsUploadedThumbnail(rows: seq<Video>, userId: Uuid, id: Uuid,
                                     uploadFromUrl: string -> Option<UploadedFile>, v: Video)
    requires v in rows && v.id == id && v.userId == userId && UniqueIds(rows)
    requires Truthy(v.muxPlaybackId)
    requires uploadFromUrl(MuxThumbnailUrl(v.muxPlaybackId.value)).Some?
    ensures var (r, after) := RestoreSpec(rows, userId, id, uploadFromUrl);
      var file := uploadFromUrl(MuxThumbnailUrl(v.muxPlaybackId.value)).value;
      && r == Ok(v.(thumbnailUrl := Some(file.url), thumbnailKey := Some(file.key)))
      && ChangedOnly(rows, after, Owned(id, userId), ThumbnailColumns)
      && forall i :: 0 <= i < |rows| && rows[i] == v ==> after[i] == r.value
  {
    var w := Owned(id, userId);
    var file := uploadFromUrl(MuxThumbnailUrl(v.muxPlaybackId.value)).value;
    var a := Thumbnail(Some(file.url), Some(file.key));
    var clear := Truthy(v.thumbnailKey);
    var cleared := Cleared(rows, w, clear);
    var v' := if clear then v.(thumbnailUrl := None, thumbnailKey := None) else v;
    var written := v.(thumbnailUrl := Some(file.url), thumbnailKey := Some(file.key));
    OwnedRowIsFound(rows, userId, id, v);
    ClearedKeepsOwnedRow(rows, w, clear, v);
    assert Apply(a, v') == written;
    ReturningApplies(cleared, w, a);
    assert Returning(cleared, w, a)[0] == written;
    assert RestoreSpec(rows, userId, id, uploadFromUrl) == (Ok(written), UpdateRows(cleared, w, a));
    RestoreFrame(rows, w, clear, a);
    forall i | 0 <= i < |rows| && rows[i] == v ensures UpdateRows(cleared, w, a)[i] == written {
      assert cleared[i] == v';
    }
  }

  /** Both writes of `restoreThumbnail` together change only the two thumbnail columns of the
      rows the owner's `where` selects. */
  lemma RestoreFrame(rows: seq<Video>, w: Where, clear: bool, a: Assignment)
    requires w.Owned? && Touches(a) == ThumbnailColumns
    ensures ChangedOnly(rows, UpdateRows(Cleared(rows, w, clear), w, a), w, ThumbnailColumns)
  {
    var cleared := Cleared(rows, w, clear);
    UpdateRowsFrame(cleared, w, a);
    if clear {
      assert Touches(Thumbnail(None, None)) == ThumbnailColumns;
      UpdateRowsFrame(rows, w, Thumbnail(None, None));
      ChangedOnlyTrans(rows, cleared, UpdateRows(cleared, w, a), w, ThumbnailColumns);
    }
  }

  /** With a unique primary key the owned row is the one the lookup finds. */
  lemma OwnedRowIsFound(rows: seq<Video>, userId: Uuid, id: Uuid, v: Video)
    requires v in rows && v.id == id && v.userId == userId && UniqueIds(rows)
    ensures MatchingRows(rows, Owned(id, userId)) == [v]
  {
    var found := MatchingRows(rows, Owned(id, userId));
    OwnedSelectsAtMostOne(rows, id, userId);
    assert v in found;
  }

  /** After the clearing, the owner's `where` still selects the one owned row, at its place,
      with at most its thumbnail cleared. */
  lemma ClearedKeepsOwnedRow(rows: seq<Video>, w: Where, clear: bool, v: Video)
    requires w.Owned? && MatchingRows(rows, w) == [v]
    ensures var cleared := Cleared(rows, w, clear);
      var v' := if clear then v.(thumbnailUrl := None, thumbnailKey := None) else v;
      && MatchingRows(cleared, w) == [v']
      && |cleared| == |rows|
      && forall i :: 0 <= i < |rows| && rows[i] == v ==> cleared[i] == v'
  {
    if clear {
      var t := Thumbnail(None, None);
      UpdatedRowsStillMatch(rows, w, t);
      assert v in MatchingRows(rows, w);
      ReturningApplies(rows, w, t);
      assert Returning(rows, w, t)[0] == Apply(t, v);
    }
  }
}
