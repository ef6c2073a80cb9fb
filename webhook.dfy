/** The Mux webhook (`POST /api/videos/webhook`): it guards on the signing secret and the
    `mux-signature` header, then maps each of five asset events to one statement on `videos`. */
module MuxWebhook {
  import opened Wrappers
  import opened Schema
  import opened Table
  import opened Db

  const AssetCreated := "video.asset.created"
  const AssetReady := "video.asset.ready"
  const AssetErrored := "video.asset.errored"
  const AssetDeleted := "video.asset.deleted"
  const TrackReady := "video.asset.track.ready"

  /** One entry of `data.playback_ids`; its `id` may be absent. */
  datatype PlaybackRef = PlaybackRef(id: Option<string>)

  /** The fields of `payload.data` the handler reads. `id` is the asset id (the track id for a
      track event); `duration` is in seconds. */
  datatype EventData = EventData(
    id: string,
    status: string,
    uploadId: Option<string>,
    assetId: Option<string>,
    playbackIds: Option<seq<PlaybackRef>>,
    duration: Option<real>)

  /** The parsed request body: `type` and `data`. */
  datatype Payload = Payload(kind: string, data: EventData)

  /** How the request ends: a `Response` with a status and a body, or an exception. */
  datatype Outcome = Respond(status: int, body: string) | Throw(message: string)

  /** The statement an accepted event runs; an unknown event runs none. */
  datatype Statement = UpdateWhere(w: Where, a: Assignment) | DeleteWhere(w: Where) | NoStatement

  /** The handler either returns early, before any write, or runs one statement and answers 200. */
  datatype Step = Early(outcome: Outcome) | Run(statement: Statement)

  const Received := Respond(200, "Webhook received")
  const MissingUploadId := Respond(400, "Missing upload Id")
  const MissingPlaybackId := Respond(400, "Missing playback ID")
  const MissingAssetId := Respond(400, "Missing asset ID")
  const NoSignature := Respond(401, "No signature found")
  const NoSecret := Throw("MUX_WEBHOOK_SECRET is not set ")
  const NoFirstPlaybackId := Throw("TypeError: Cannot read properties of undefined (reading 'id')")

  /** `data.playback_ids?.[0].id`: absent without the array; an empty array has no first
      element, and reading `.id` of it throws. */
  function FirstPlaybackId(ids: Option<seq<PlaybackRef>>): (r: Result<Option<string>, Outcome>)
    ensures r.Err? <==> ids == Some([])
    ensures r.Ok? && ids.Some? ==> r.value == ids.value[0].id
    ensures r.Ok? && ids.None? ==> r.value == None
  {
    match ids
    case None => Ok(None)
    case Some(s) => if |s| == 0 then Err(NoFirstPlaybackId) else Ok(s[0].id)
  }

  /** `data.duration ? Math.round(data.duration * 1000) : 0`, in milliseconds. `Math.round`
      rounds halves upwards. */
  function DurationMs(d: Option<real>): (ms: int)
    ensures d.None? || d.value == 0.0 ==> ms == 0
    ensures d.Some? && d.value != 0.0 ==>
      ms as real <= d.value * 1000.0 + 0.5 < ms as real + 1.0
  {
    if d.Some? && d.value != 0.0 then (d.value * 1000.0 + 0.5).Floor else 0
  }

  /** What the handler decides from the secret, the signature header and the payload, before
      it touches the table. */
  function Decide(secret: Option<string>, signature: Option<string>, p: Payload): Step
  {
    var data := p.data;
    if !Truthy(secret) then Early(NoSecret)
    else if !Truthy(signature) then Early(NoSignature)
    else if p.kind == AssetCreated then
      if !Truthy(data.uploadId) then Early(MissingUploadId)
      else Run(UpdateWhere(UploadIdIs(data.uploadId.value), Table.AssetCreated(data.id, data.status)))
    else if p.kind == AssetReady then
      match FirstPlaybackId(data.playbackIds)
      case Err(thrown) => Early(thrown)
      case Ok(playbackId) =>
        if !Truthy(data.uploadId) then Early(MissingUploadId)
        else if !Truthy(playbackId) then Early(MissingPlaybackId)
        else
          var pid := playbackId.value;
          Run(UpdateWhere(UploadIdIs(data.uploadId.value),
                          Table.AssetReady(data.status, pid, data.id, MuxThumbnailUrl(pid),
                                           MuxPreviewUrl(pid), DurationMs(data.duration))))
    else if p.kind == AssetErrored then
      if !Truthy(data.uploadId) then Early(MissingUploadId)
      else Run(UpdateWhere(UploadIdIs(data.uploadId.value), StatusOnly(data.status)))
    else if p.kind == AssetDeleted then
      if !Truthy(data.uploadId) then Early(MissingUploadId)
      else Run(DeleteWhere(UploadIdIs(data.uploadId.value)))
    else if p.kind == TrackReady then
      if !Truthy(data.assetId) then Early(MissingAssetId)
      else Run(UpdateWhere(AssetIdIs(data.assetId.value), Table.TrackReady(data.id, data.status)))
    else Run(NoStatement)
  }

  /** The table after a statement. */
  function Effect(rows: seq<Video>, s: Statement): seq<Video>
  {
    match s
    case UpdateWhere(w, a) => UpdateRows(rows, w, a)
    case DeleteWhere(w) => DeleteRows(rows, w)
    case NoStatement => rows
  }

  /** The whole request: its outcome and the table afterwards. */
  function Reconcile(rows: seq<Video>, secret: Option<string>, signature: Option<string>,
                     p: Payload): (Outcome, seq<Video>)
  {
    match Decide(secret, signature, p)
    case Early(out) => (out, rows)
    case Run(s) => (Received, Effect(rows, s))
  }

  /** The route handler, on the shared database. */
  method Post(db: Database, secret: Option<string>, signature: Option<string>, p: Payload)
    returns (out: Outcome)
    requires db.Valid()
    modifies db
    ensures db.Valid() && db.users == old(db.users)
    ensures (out, db.videos) == Reconcile(old(db.videos), secret, signature, p)
  {
    if !Truthy(secret) {
      return NoSecret;
    }
    if !Truthy(signature) {
      return NoSignature;
    }
    var data := p.data;
    if p.kind == AssetCreated {
      if !Truthy(data.uploadId) {
        return MissingUploadId;
      }
      var _ := db.UpdateVideos(UploadIdIs(data.uploadId.value),
                               Table.AssetCreated(data.id, data.status));
    } else if p.kind == AssetReady {
      var first := FirstPlaybackId(data.playbackIds);
      if first.Err? {
        return first.error;
      }
      var playbackId := first.value;
      if !Truthy(data.uploadId) {
        return MissingUploadId;
      }
      if !Truthy(playbackId) {
        return MissingPlaybackId;
      }
      var pid := playbackId.value;
      var thumbnailUrl := MuxThumbnailUrl(pid);
      var previewUrl := MuxPreviewUrl(pid);
      var duration := DurationMs(data.duration);
      var _ := db.UpdateVideos(UploadIdIs(data.uploadId.value),
                               Table.AssetReady(data.status, pid, data.id, thumbnailUrl,
                                                previewUrl, duration));
    } else if p.kind == AssetErrored {
      if !Truthy(data.uploadId) {
        return MissingUploadId;
      }
      var _ := db.UpdateVideos(UploadIdIs(data.uploadId.value), StatusOnly(data.status));
    } else if p.kind == AssetDeleted {
      if !Truthy(data.uploadId) {
        return MissingUploadId;
      }
      var _ := db.DeleteVideos(UploadIdIs(data.uploadId.value));
    } else if p.kind == TrackReady {
      if !Truthy(data.assetId) {
        return MissingAssetId;
      }
      var _ := db.UpdateVideos(AssetIdIs(data.assetId.value), Table.TrackReady(data.id, data.status));
    }
    return Received;
  }

  // ---------------------------------------------------------------------------------------
  // Properties of the handler

  /** Without the signing secret every request throws, whatever it carries, and nothing is
      written. */
  lemma NoSecretThrows(rows: seq<Video>, secret: Option<string>, signature: Option<string>,
                       p: Payload)
    requires !Truthy(secret)
    ensures Reconcile(rows, secret, signature, p) == (NoSecret, rows)
  {
  }

  /** A request without a `mux-signature` header is answered 401 and writes nothing. */
  lemma NoSignatureUnauthorized(rows: seq<Video>, secret: Option<string>,
                                signature: Option<string>, p: Payload)
    requires Truthy(secret) && !Truthy(signature)
    ensures Reconcile(rows, secret, signature, p) == (Respond(401, "No signature found"), rows)
  {
  }

  /** The four upload events answer 400 without an `upload_id` and write nothing; `ready`
      does so only once it has read its first playback id without throwing. */
  lemma MissingUploadIdRejected(rows: seq<Video>, secret: Option<string>,
                                signature: Option<string>, p: Payload)
    requires Truthy(secret) && Truthy(signature)
    requires p.kind in {AssetCreated, AssetReady, AssetErrored, AssetDeleted}
    requires p.kind == AssetReady ==> p.data.playbackIds != Some([])
    requires !Truthy(p.data.uploadId)
    ensures Reconcile(rows, secret, signature, p) == (Respond(400, "Missing upload Id"), rows)
  {
  }

  /** Every early answer leaves the table as it was, and every accepted request answers 200. */
  lemma EarlyAnswersWriteNothing(rows: seq<Video>, secret: Option<string>,
                                 signature: Option<string>, p: Payload)
    ensures var (out, after) := Reconcile(rows, secret, signature, p);
      out != Received ==> after == rows
    ensures Decide(secret, signature, p).Run? ==> Reconcile(rows, secret, signature, p).0 == Received
  {
  }

  /** An accepted request keeps the primary key unique, never adds a row, and changes neither
      the id nor the owner of any row. */
  lemma AcceptedKeepsKeys(rows: seq<Video>, secret: Option<string>, signature: Option<string>,
                          p: Payload)
    requires UniqueIds(rows)
    ensures var after := Reconcile(rows, secret, signature, p).1;
      UniqueIds(after) && |after| <= |rows|
      && forall v :: v in after ==> exists u :: u in rows && u.id == v.id && u.userId == v.userId
  {
    var after := Reconcile(rows, secret, signature, p).1;
    match Decide(secret, signature, p)
    case Early(_) =>
      forall v | v in after ensures exists u :: u in rows && u.id == v.id && u.userId == v.userId {
        assert v in rows;
      }
    case Run(s) =>
      match s
      case UpdateWhere(w, a) =>
        UpdateRowsFrame(rows, w, a);
        forall v | v in after ensures exists u :: u in rows && u.id == v.id && u.userId == v.userId {
          var i :| 0 <= i < |after| && after[i] == v;
          assert Id !in Touches(a) && UserId !in Touches(a);
          assert rows[i] in rows;
        }
      case DeleteWhere(w) =>
        DeleteRowsUniqueIds(rows, w);
        DeleteRowsSplit(rows, w);
        assert |after| == |multiset(after)| <= |multiset(rows)| == |rows|;
        forall v | v in after ensures exists u :: u in rows && u.id == v.id && u.userId == v.userId {
          assert v in rows;
        }
      case NoStatement =>
        forall v | v in after ensures exists u :: u in rows && u.id == v.id && u.userId == v.userId {
          assert v in rows;
        }
  }

  /** `video.asset.created` sets the asset id and status of exactly the rows with that upload id,
      and nothing else. */
  lemma CreatedSetsAsset(rows: seq<Video>, secret: Option<string>, signature: Option<string>,
                         p: Payload)
    requires Truthy(secret) && Truthy(signature) && p.kind == AssetCreated
    requires Truthy(p.data.uploadId)
    ensures var (out, after) := Reconcile(rows, secret, signature, p);
      var w := UploadIdIs(p.data.uploadId.value);
      && out == Received
      && ChangedOnly(rows, after, w, {MuxAssetId, MuxStatus})
      && forall i :: 0 <= i < |rows| && rows[i].muxUploadId == p.data.uploadId ==>
           after[i].muxAssetId == Some(p.data.id) && after[i].muxStatus == Some(p.data.status)
  {
    var w := UploadIdIs(p.data.uploadId.value);
    UpdateRowsFrame(rows, w, Table.AssetCreated(p.data.id, p.data.status));
  }

  /** `video.asset.ready` answers 400 when the first playback id is missing or empty. */
  lemma ReadyWithoutPlaybackId(rows: seq<Video>, secret: Option<string>,
                               signature: Option<string>, p: Payload)
    requires Truthy(secret) && Truthy(signature) && p.kind == AssetReady
    requires Truthy(p.data.uploadId)
    requires p.data.playbackIds.None?
      || (|p.data.playbackIds.value| > 0 && !Truthy(p.data.playbackIds.value[0].id))
    ensures Reconcile(rows, secret, signature, p) == (Respond(400, "Missing playback ID"), rows)
  {
  }

  /** A `ready` event whose `playback_ids` array is empty throws before any other check. */
  lemma ReadyWithEmptyPlaybackIdsThrows(rows: seq<Video>, secret: Option<string>,
                                        signature: Option<string>, p: Payload)
    requires Truthy(secret) && Truthy(signature) && p.kind == AssetReady
    requires p.data.playbackIds == Some([])
    ensures Reconcile(rows, secret, signature, p).0.Throw?
    ensures Reconcile(rows, secret, signature, p).1 == rows
  {
  }

  /** Otherwise `ready` writes status, playback id, asset id, the two image URLs built from the
      playback id and the duration on the rows with that upload id, and nothing else. */
  lemma ReadySetsPlayback(rows: seq<Video>, secret: Option<string>, signature: Option<string>,
                          p: Payload)
    requires Truthy(secret) && Truthy(signature) && p.kind == AssetReady
    requires Truthy(p.data.uploadId)
    requires p.data.playbackIds.Some? && |p.data.playbackIds.value| > 0
    requires Truthy(p.data.playbackIds.value[0].id)
    ensures var (out, after) := Reconcile(rows, secret, signature, p);
      var pid := p.data.playbackIds.value[0].id.value;
      var w := UploadIdIs(p.data.uploadId.value);
      && out == Received
      && ChangedOnly(rows, after, w,
                     {MuxStatus, MuxPlaybackId, MuxAssetId, ThumbnailUrl, PreviewUrl, Duration})
      && forall i :: 0 <= i < |rows| && rows[i].muxUploadId == p.data.uploadId ==>
           && after[i].muxStatus == Some(p.data.status)
           && after[i].muxPlaybackId == Some(pid)
           && after[i].muxAssetId == Some(p.data.id)
           && after[i].thumbnailUrl == Some("https://image.mux.com/" + pid + "/thumbnail.jpg")
           && after[i].previewUrl == Some("https://image.mux.com/" + pid + "/animated.gif")
           && after[i].duration == DurationMs(p.data.duration)
  {
    var pid := p.data.playbackIds.value[0].id.value;
    var a := Table.AssetReady(p.data.status, pid, p.data.id, MuxThumbnailUrl(pid),
                              MuxPreviewUrl(pid), DurationMs(p.data.duration));
    UpdateRowsFrame(rows, UploadIdIs(p.data.uploadId.value), a);
  }

  /** `video.asset.errored` changes only the status of the rows with that upload id. */
  lemma ErroredSetsStatus(rows: seq<Video>, secret: Option<string>, signature: Option<string>,
                          p: Payload)
    requires Truthy(secret) && Truthy(signature) && p.kind == AssetErrored
    requires Truthy(p.data.uploadId)
    ensures var (out, after) := Reconcile(rows, secret, signature, p);
      && out == Received
      && ChangedOnly(rows, after, UploadIdIs(p.data.uploadId.value), {MuxStatus})
      && forall i :: 0 <= i < |rows| && rows[i].muxUploadId == p.data.uploadId ==>
           after[i].muxStatus == Some(p.data.status)
  {
    UpdateRowsFrame(rows, UploadIdIs(p.data.uploadId.value), StatusOnly(p.data.status));
  }

  /** `video.asset.deleted` removes exactly the rows with that upload id: the rows kept and the
      rows removed make up the old table. */
  lemma DeletedRemovesUpload(rows: seq<Video>, secret: Option<string>, signature: Option<string>,
                             p: Payload)
    requires Truthy(secret) && Truthy(signature) && p.kind == AssetDeleted
    requires Truthy(p.data.uploadId)
    ensures var (out, after) := Reconcile(rows, secret, signature, p);
      var w := UploadIdIs(p.data.uploadId.value);
      && out == Received
      && (forall v :: v in after <==> v in rows && v.muxUploadId != p.data.uploadId)
      && multiset(after) + multiset(MatchingRows(rows, w)) == multiset(rows)
  {
    DeleteRowsSplit(rows, UploadIdIs(p.data.uploadId.value));
  }

  /** `video.asset.track.ready` answers 400 without an `asset_id`, and otherwise sets the track
      id and status of the rows with that asset id, not those with an upload id. */
  lemma TrackReadySetsTrack(rows: seq<Video>, secret: Option<string>, signature: Option<string>,
                            p: Payload)
    requires Truthy(secret) && Truthy(signature) && p.kind == TrackReady
    ensures !Truthy(p.data.assetId) ==>
      Reconcile(rows, secret, signature, p) == (Respond(400, "Missing asset ID"), rows)
    ensures Truthy(p.data.assetId) ==>
      var (out, after) := Reconcile(rows, secret, signature, p);
      && out == Received
      && ChangedOnly(rows, after, AssetIdIs(p.data.assetId.value), {MuxTrackId, MuxStatus})
      && forall i :: 0 <= i < |rows| && rows[i].muxAssetId == p.data.assetId ==>
           after[i].muxTrackId == Some(p.data.id) && after[i].muxStatus == Some(p.data.status)
  {
    if Truthy(p.data.assetId) {
      UpdateRowsFrame(rows, AssetIdIs(p.data.assetId.value), Table.TrackReady(p.data.id, p.data.status));
    }
  }

  /** An event of any other type is acknowledged and writes nothing. */
  lemma UnknownEventIgnored(rows: seq<Video>, secret: Option<string>, signature: Option<string>,
                            p: Payload)
    requires Truthy(secret) && Truthy(signature)
    requires p.kind !in {AssetCreated, AssetReady, AssetErrored, AssetDeleted, TrackReady}
    ensures Reconcile(rows, secret, signature, p) == (Received, rows)
  {
  }

  /** Mux may deliver an event more than once: a second delivery answers the same and leaves the
      table as the first left it. */
  lemma RedeliveryIdempotent(rows: seq<Video>, secret: Option<string>, signature: Option<string>,
                             p: Payload)
    ensures var (out, after) := Reconcile(rows, secret, signature, p);
      Reconcile(after, secret, signature, p) == (out, after)
  {
    match Decide(secret, signature, p)
    case Early(_) =>
    case Run(s) =>
      match s
      case UpdateWhere(w, a) => UpdateRowsIdempotent(rows, w, a);
      case DeleteWhere(w) => DeleteRowsIdempotent(rows, w);
      case NoStatement =>
  }
}
