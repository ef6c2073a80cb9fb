/** The SQL statements the procedures run on `videos`, as functions of the table's rows:
    `update videos set … where …`, `delete from videos where …` and the rows a `returning()`
    clause gives back. */
module Table {
  import opened Wrappers
  import opened Schema

  /** The `where` clauses that occur: `eq(videos.muxUploadId, u)`, `eq(videos.muxAssetId, a)`
      and `and(eq(videos.id, id), eq(videos.userId, userId))`. */
  datatype Where =
    | UploadIdIs(uploadId: string)
    | AssetIdIs(assetId: string)
    | Owned(id: Uuid, userId: Uuid)

  /** SQL equality: a NULL column never equals a value. */
  predicate Matches(w: Where, v: Video)
  {
    match w
    case UploadIdIs(u) => v.muxUploadId == Some(u)
    case AssetIdIs(a) => v.muxAssetId == Some(a)
    case Owned(id, userId) => v.id == id && v.userId == userId
  }

  /** The columns a `where` clause reads. */
  function WhereColumns(w: Where): set<Field>
  {
    match w
    case UploadIdIs(_) => {MuxUploadId}
    case AssetIdIs(_) => {MuxAssetId}
    case Owned(_, _) => {Id, UserId}
  }

  /** A `where` clause sees only its own columns: rows that differ only outside them are
      selected alike. */
  lemma MatchesFramed(w: Where, a: Video, b: Video, fs: set<Field>)
    requires SameExcept(a, b, fs) && WhereColumns(w) !! fs
    ensures Matches(w, a) == Matches(w, b)
  {
    match w
    case UploadIdIs(_) => assert MuxUploadId !in fs;
    case AssetIdIs(_) => assert MuxAssetId !in fs;
    case Owned(_, _) => assert Id !in fs && UserId !in fs;
  }

  /** The `set` clauses that occur, one per call site. */
  datatype Assignment =
      /** `video.asset.created`: `{ muxAssetId, muxStatus }` */
    | AssetCreated(muxAssetId: string, muxStatus: string)
      /** `video.asset.ready`: status, playback id, asset id, the two image URLs and the duration */
    | AssetReady(muxStatus: string, muxPlaybackId: string, muxAssetId: string,
                 thumbnailUrl: string, previewUrl: string, duration: int)
      /** `video.asset.errored`: `{ muxStatus }` */
    | StatusOnly(muxStatus: string)
      /** `video.asset.track.ready`: `{ muxTrackId, muxStatus }` */
    | TrackReady(muxTrackId: string, muxStatus: string)
      /** `videos.update`: the four editable columns, each skipped when `undefined`, and `updatedAt` */
    | Details(title: Patch<string>, description: Patch<Option<string>>,
              categoryId: Patch<Option<Uuid>>, visibility: Patch<Visibility>, updatedAt: int)
      /** `videos.restoreThumbnail`: `{ thumbnailKey, thumbnailUrl }` (cleared, then set) */
    | Thumbnail(url: Option<string>, key: Option<string>)
      /** the thumbnail upload's completion: `{ thumbnailUrl }` */
    | ThumbnailUrlOnly(fileUrl: string)

  /** The columns a `set` clause writes (a `Keep` key is not written). No statement writes the
      primary key or the owner. */
  function Touches(a: Assignment): (fs: set<Field>)
    ensures Id !in fs && UserId !in fs
  {
    match a
    case AssetCreated(_, _) => {MuxAssetId, MuxStatus}
    case AssetReady(_, _, _, _, _, _) =>
      {MuxStatus, MuxPlaybackId, MuxAssetId, ThumbnailUrl, PreviewUrl, Duration}
    case StatusOnly(_) => {MuxStatus}
    case TrackReady(_, _) => {MuxTrackId, MuxStatus}
    case Details(t, d, c, vis, _) =>
      (if t.Put? then {Title} else {}) + (if d.Put? then {Description} else {})
      + (if c.Put? then {CategoryId} else {}) + (if vis.Put? then {Visibility} else {})
      + {UpdatedAt}
    case Thumbnail(_, _) => {ThumbnailUrl, ThumbnailKey}
    case ThumbnailUrlOnly(_) => {ThumbnailUrl}
  }

  /** One row after the `set` clause: every column outside `Touches(a)` keeps its value. */
  function Apply(a: Assignment, v: Video): Video
  {
    match a
    case AssetCreated(asset, status) => v.(muxAssetId := Some(asset), muxStatus := Some(status))
    case AssetReady(status, playback, asset, thumb, preview, dur) =>
      v.(muxStatus := Some(status), muxPlaybackId := Some(playback), muxAssetId := Some(asset),
         thumbnailUrl := Some(thumb), previewUrl := Some(preview), duration := dur)
    case StatusOnly(status) => v.(muxStatus := Some(status))
    case TrackReady(track, status) => v.(muxTrackId := Some(track), muxStatus := Some(status))
    case Details(t, d, c, vis, at) =>
      v.(title := PatchOr(t, v.title), description := PatchOr(d, v.description),
         categoryId := PatchOr(c, v.categoryId), visibility := PatchOr(vis, v.visibility),
         updatedAt := at)
    case Thumbnail(url, key) => v.(thumbnailUrl := url, thumbnailKey := key)
    case ThumbnailUrlOnly(url) => v.(thumbnailUrl := Some(url))
  }

  /** A `set` clause writes no column outside `Touches(a)`. */
  lemma ApplyFrame(a: Assignment, v: Video)
    ensures SameExcept(Apply(a, v), v, Touches(a))
  {
  }

  /** A `set` clause that leaves the columns of `w` alone does not change whether `w` selects
      the row. */
  lemma ApplyKeepsMatch(a: Assignment, w: Where, v: Video)
    requires WhereColumns(w) !! Touches(a)
    ensures Matches(w, Apply(a, v)) == Matches(w, v)
  {
    ApplyFrame(a, v);
    MatchesFramed(w, Apply(a, v), v, Touches(a));
  }

  /** Every `set` clause writes constants, so writing it twice is writing it once. */
  lemma ApplyIdempotent(a: Assignment, v: Video)
    ensures Apply(a, Apply(a, v)) == Apply(a, v)
  {
  }

  /** `update videos set a where w`: matched rows are rewritten in place, the others kept. */
  function UpdateRows(rows: seq<Video>, w: Where, a: Assignment): seq<Video>
  {
    seq(|rows|, i requires 0 <= i < |rows| =>
      if Matches(w, rows[i]) then Apply(a, rows[i]) else rows[i])
  }

  /** `select * from videos where w`, in table order. */
  function MatchingRows(rows: seq<Video>, w: Where): (r: seq<Video>)
    ensures forall v :: v in r <==> v in rows && Matches(w, v)
    ensures |r| <= |rows|
  {
    if rows == [] then []
    else if Matches(w, rows[0]) then [rows[0]] + MatchingRows(rows[1..], w)
    else MatchingRows(rows[1..], w)
  }

  /** `delete from videos where w`: the rows that remain, in table order. */
  function DeleteRows(rows: seq<Video>, w: Where): (r: seq<Video>)
    ensures forall v :: v in r <==> v in rows && !Matches(w, v)
  {
    if rows == [] then []
    else if Matches(w, rows[0]) then DeleteRows(rows[1..], w)
    else [rows[0]] + DeleteRows(rows[1..], w)
  }

  /** What `update … returning()` gives back: the matched rows as they are after the update. */
  function Returning(rows: seq<Video>, w: Where, a: Assignment): (r: seq<Video>)
    ensures |r| == |MatchingRows(rows, w)|
  {
    if rows == [] then []
    else if Matches(w, rows[0]) then [Apply(a, rows[0])] + Returning(rows[1..], w, a)
    else Returning(rows[1..], w, a)
  }

  /** `returning()` gives back, in order, each selected row with the `set` clause applied. */
  lemma {:induction false} ReturningApplies(rows: seq<Video>, w: Where, a: Assignment)
    ensures forall i :: 0 <= i < |Returning(rows, w, a)| ==>
      Returning(rows, w, a)[i] == Apply(a, MatchingRows(rows, w)[i])
  {
    if rows != [] {
      ReturningApplies(rows[1..], w, a);
    }
  }

  /** The table `after` differs from `before` only in the rows `w` selects, and in those only in
      the columns `fs`; no row is added or removed. */
  predicate ChangedOnly(before: seq<Video>, after: seq<Video>, w: Where, fs: set<Field>)
  {
    && |after| == |before|
    && forall i :: 0 <= i < |before| ==>
         if Matches(w, before[i]) then SameExcept(after[i], before[i], fs) else after[i] == before[i]
  }

  /** An update keeps the primary key unique and changes nothing outside its rows and columns. */
  lemma UpdateRowsFrame(rows: seq<Video>, w: Where, a: Assignment)
    ensures ChangedOnly(rows, UpdateRows(rows, w, a), w, Touches(a))
    ensures UniqueIds(UpdateRows(rows, w, a)) <==> UniqueIds(rows)
  {
    var r := UpdateRows(rows, w, a);
    forall i | 0 <= i < |r|
      ensures if Matches(w, rows[i]) then SameExcept(r[i], rows[i], Touches(a)) else r[i] == rows[i]
      ensures r[i].id == rows[i].id
    {
      ApplyFrame(a, rows[i]);
      assert Id !in Touches(a);
    }
  }

  /** An update that selects no row leaves the table as it was. */
  lemma UpdateRowsNoMatch(rows: seq<Video>, w: Where, a: Assignment)
    requires MatchingRows(rows, w) == []
    ensures UpdateRows(rows, w, a) == rows
  {
    var r := UpdateRows(rows, w, a);
    forall i | 0 <= i < |rows| ensures r[i] == rows[i] {
      assert rows[i] !in MatchingRows(rows, w);
    }
  }

  /** An update whose `set` does not write the columns its `where` reads can be repeated
      without effect: the rows it selected are still selected, and rewritten to the same values. */
  lemma UpdateRowsIdempotent(rows: seq<Video>, w: Where, a: Assignment)
    requires WhereColumns(w) !! Touches(a)
    ensures UpdateRows(UpdateRows(rows, w, a), w, a) == UpdateRows(rows, w, a)
  {
    var once := UpdateRows(rows, w, a);
    var twice := UpdateRows(once, w, a);
    forall i | 0 <= i < |rows| ensures twice[i] == once[i] {
      if Matches(w, rows[i]) {
        ApplyKeepsMatch(a, w, rows[i]);
        ApplyIdempotent(a, rows[i]);
      }
    }
  }

  /** A `delete` that selects no row leaves the table as it was. */
  lemma {:induction false} DeleteRowsNoMatch(rows: seq<Video>, w: Where)
    requires MatchingRows(rows, w) == []
    ensures DeleteRows(rows, w) == rows
  {
    if rows != [] {
      assert rows[0] !in MatchingRows(rows, w);
      DeleteRowsNoMatch(rows[1..], w);
      assert rows == [rows[0]] + rows[1..];
    }
  }

  /** When the `set` does not write the columns the `where` reads, selecting again after the
      update finds exactly the rows `returning()` gave back. */
  lemma {:induction false} UpdatedRowsStillMatch(rows: seq<Video>, w: Where, a: Assignment)
    requires WhereColumns(w) !! Touches(a)
    ensures MatchingRows(UpdateRows(rows, w, a), w) == Returning(rows, w, a)
  {
    if rows != [] {
      var tail := rows[1..];
      var after := UpdateRows(rows, w, a);
      assert after[1..] == UpdateRows(tail, w, a);
      assert after == [after[0]] + after[1..];
      UpdatedRowsStillMatch(tail, w, a);
      ApplyKeepsMatch(a, w, rows[0]);
    }
  }

  /** Two statements that each change only the rows `w` selects, in the columns `fs`, together
      change no more, when `fs` leaves the columns `w` reads alone. */
  lemma ChangedOnlyTrans(a: seq<Video>, b: seq<Video>, c: seq<Video>, w: Where, fs: set<Field>)
    requires WhereColumns(w) !! fs
    requires ChangedOnly(a, b, w, fs) && ChangedOnly(b, c, w, fs)
    ensures ChangedOnly(a, c, w, fs)
  {
    forall i | 0 <= i < |a|
      ensures if Matches(w, a[i]) then SameExcept(c[i], a[i], fs) else c[i] == a[i]
    {
      if Matches(w, a[i]) {
        MatchesFramed(w, b[i], a[i], fs);
      }
    }
  }

  /** Deleting again removes nothing more. */
  lemma {:induction false} DeleteRowsIdempotent(rows: seq<Video>, w: Where)
    ensures DeleteRows(DeleteRows(rows, w), w) == DeleteRows(rows, w)
  {
    if rows != [] {
      DeleteRowsIdempotent(rows[1..], w);
      if !Matches(w, rows[0]) {
        assert ([rows[0]] + DeleteRows(rows[1..], w))[1..] == DeleteRows(rows[1..], w);
      }
    }
  }

  /** Dropping the first row keeps the primary key unique, and no later row shares its id. */
  lemma TailUniqueIds(rows: seq<Video>)
    requires UniqueIds(rows) && rows != []
    ensures UniqueIds(rows[1..])
    ensures forall v :: v in rows[1..] ==> v.id != rows[0].id
  {
    forall v | v in rows[1..] ensures v.id != rows[0].id {
      var k :| 0 <= k < |rows[1..]| && rows[1..][k] == v;
      assert rows[k + 1] == v;
    }
  }

  /** A `select` of a table with a unique primary key returns rows with unique ids. */
  lemma {:induction false} MatchingRowsUniqueIds(rows: seq<Video>, w: Where)
    requires UniqueIds(rows)
    ensures UniqueIds(MatchingRows(rows, w))
  {
    if rows != [] {
      TailUniqueIds(rows);
      MatchingRowsUniqueIds(rows[1..], w);
    }
  }

  /** A `delete` keeps the primary key unique among the rows that remain. */
  lemma {:induction false} DeleteRowsUniqueIds(rows: seq<Video>, w: Where)
    requires UniqueIds(rows)
    ensures UniqueIds(DeleteRows(rows, w))
  {
    if rows != [] {
      TailUniqueIds(rows);
      DeleteRowsUniqueIds(rows[1..], w);
    }
  }

  /** A `delete` splits the table: the rows it removes (those `w` selects) and the rows that
      remain make up the old table exactly, duplicates included. */
  lemma {:induction false} DeleteRowsSplit(rows: seq<Video>, w: Where)
    ensures multiset(DeleteRows(rows, w)) + multiset(MatchingRows(rows, w)) == multiset(rows)
  {
    if rows != [] {
      var x, tail := rows[0], rows[1..];
      DeleteRowsSplit(tail, w);
      assert multiset(rows) == multiset{x} + multiset(tail) by {
        assert rows == [x] + tail;
      }
      var d, m := DeleteRows(tail, w), MatchingRows(tail, w);
      if Matches(w, x) {
        assert multiset(MatchingRows(rows, w)) == multiset{x} + multiset(m) by {
          assert MatchingRows(rows, w) == [x] + m;
        }
      } else {
        assert multiset(DeleteRows(rows, w)) == multiset{x} + multiset(d) by {
          assert DeleteRows(rows, w) == [x] + d;
        }
      }
    }
  }

  /** A `where` clause that no row satisfies selects nothing. */
  lemma {:induction false} NothingSelected(rows: seq<Video>, w: Where)
    requires forall v :: v in rows ==> !Matches(w, v)
    ensures MatchingRows(rows, w) == []
  {
    if rows != [] {
      assert rows[0] in rows;
      NothingSelected(rows[1..], w);
    }
  }

  /** The primary key makes an owner-scoped `where` select at most one row. */
  lemma {:induction false} OwnedSelectsAtMostOne(rows: seq<Video>, id: Uuid, userId: Uuid)
    requires UniqueIds(rows)
    ensures |MatchingRows(rows, Owned(id, userId))| <= 1
  {
    if rows != [] {
      var w := Owned(id, userId);
      TailUniqueIds(rows);
      OwnedSelectsAtMostOne(rows[1..], id, userId);
      if Matches(w, rows[0]) {
        NothingSelected(rows[1..], w);
      }
    }
  }
}
