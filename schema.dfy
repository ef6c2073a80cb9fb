/** The rows of the `users` and `videos` tables, and the uniqueness constraints the database keeps. */
module Schema {
  import opened Wrappers

  /** Primary keys (`uuid` columns), abstracted to an ordered type: `lt(videos.id, …)` compares them. */
  type Uuid = nat

  datatype Visibility = Private | Public

  /** One row of the `videos` table: the columns the procedures and the webhook read or write. */
  datatype Video = Video(
    id: Uuid,
    userId: Uuid,
    title: string,
    description: Option<string>,
    categoryId: Option<Uuid>,
    visibility: Visibility,
    updatedAt: int,
    muxStatus: Option<string>,
    muxUploadId: Option<string>,
    muxAssetId: Option<string>,
    muxPlaybackId: Option<string>,
    muxTrackId: Option<string>,
    thumbnailUrl: Option<string>,
    thumbnailKey: Option<string>,
    previewUrl: Option<string>,
    duration: int)

  /** One row of the `users` table. */
  datatype User = User(id: Uuid, clerkId: string, name: string, imageUrl: string)

  /** `id` is the primary key of `videos`. */
  predicate UniqueIds(rows: seq<Video>)
  {
    forall i, j :: 0 <= i < j < |rows| ==> rows[i].id != rows[j].id
  }

  /** `clerk_id` is declared unique on `users`. */
  predicate UniqueClerkIds(users: seq<User>)
  {
    forall i, j :: 0 <= i < j < |users| ==> users[i].clerkId != users[j].clerkId
  }

  /** JavaScript truthiness of an optional string: `null`, `undefined` and `""` are all falsy. */
  predicate Truthy(s: Option<string>)
  {
    s.Some? && s.value != ""
  }

  /** The still thumbnail Mux serves for a playback id. */
  function MuxThumbnailUrl(playbackId: string): string
  {
    "https://image.mux.com/" + playbackId + "/thumbnail.jpg"
  }

  /** The animated preview Mux serves for a playback id. */
  function MuxPreviewUrl(playbackId: string): string
  {
    "https://image.mux.com/" + playbackId + "/animated.gif"
  }

  /** The columns of `videos`, so that a frame can name the ones a statement may write. */
  datatype Field =
    | Id | UserId | Title | Description | CategoryId | Visibility | UpdatedAt
    | MuxStatus | MuxUploadId | MuxAssetId | MuxPlaybackId | MuxTrackId
    | ThumbnailUrl | ThumbnailKey | PreviewUrl | Duration

  /** `b` differs from `a` at most in the columns `fs`. */
  predicate SameExcept(a: Video, b: Video, fs: set<Field>)
  {
    && (Id !in fs ==> a.id == b.id)
    && (UserId !in fs ==> a.userId == b.userId)
    && (Title !in fs ==> a.title == b.title)
    && (Description !in fs ==> a.description == b.description)
    && (CategoryId !in fs ==> a.categoryId == b.categoryId)
    && (Visibility !in fs ==> a.visibility == b.visibility)
    && (UpdatedAt !in fs ==> a.updatedAt == b.updatedAt)
    && (MuxStatus !in fs ==> a.muxStatus == b.muxStatus)
    && (MuxUploadId !in fs ==> a.muxUploadId == b.muxUploadId)
    && (MuxAssetId !in fs ==> a.muxAssetId == b.muxAssetId)
    && (MuxPlaybackId !in fs ==> a.muxPlaybackId == b.muxPlaybackId)
    && (MuxTrackId !in fs ==> a.muxTrackId == b.muxTrackId)
    && (ThumbnailUrl !in fs ==> a.thumbnailUrl == b.thumbnailUrl)
    && (ThumbnailKey !in fs ==> a.thumbnailKey == b.thumbnailKey)
    && (PreviewUrl !in fs ==> a.previewUrl == b.previewUrl)
    && (Duration !in fs ==> a.duration == b.duration)
  }
}
