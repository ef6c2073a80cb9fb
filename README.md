# new-tube: the video table and the procedures that change it

new-tube is a video-sharing application built on Next.js. Creators upload videos through
Mux and thumbnails through UploadThing. A creator studio lists and edits the creator's own
videos. All of this state lives in one `videos` table. This project models the server-side
logic that reads and writes that table, and proves what the logic promises:

- **Studio reads** (`studioRouter.getOne`, `studioRouter.getMany`). `getOne` is an
  owner-scoped lookup. `getMany` is keyset pagination: it keeps the caller's rows strictly
  after the cursor, sorts them by `(updatedAt desc, id desc)`, fetches `limit + 1` rows, and
  derives `items` and `nextCursor` from them. Besides the properties of one page, the model
  proves what an infinite-scroll client sees. Following `nextCursor` from page to page gives
  exactly a prefix of the sorted query. So, for a table that does not change between the
  page loads, no video appears twice, and once enough pages are loaded every video of the
  caller has appeared.
- **The Mux webhook** (`POST /api/videos/webhook`). It guards on the signing secret and on the
  `mux-signature` header, then turns each of five asset events into one `update` or `delete`
  on `videos`. It answers 400 when the identifier it needs is missing and writes nothing in
  that case.
- **The creator's mutations** (`videosRouter.update`, `remove`, `create`,
  `restoreThumbnail`). `update`, `remove` and `restoreThumbnail` are scoped to the row with
  the caller's `(id, userId)` and write a fixed set of columns; `create` inserts one new row
  owned by the caller. Each raises the tRPC error codes of the source.
- **The thumbnail upload route** (`thumbnailUploader`). Its middleware admits only a
  signed-in Clerk user with a local `users` row. Its completion hook writes `thumbnailUrl`
  on that user's video.

Layout, one module per file:

| module | file | contents |
|---|---|---|
| `Wrappers` | `wrappers.dfy` | `Option`, `Result`, and `Patch` (an ORM `set` key given a value, or left `undefined` and skipped) |
| `Schema` | `schema.dfy` | the `Video` and `User` rows, the uniqueness constraints, JavaScript truthiness of an optional string, and the column frame `SameExcept` |
| `Table` | `table.dfy` | the SQL the procedures issue, as functions of the row sequence: `where` clauses (with SQL `NULL` never equal to a value), `set` clauses, `update`, `delete`, `select`, `returning()` |
| `Db` | `db.dfy` | `class Database`, holding the `videos` and `users` rows, with one method per statement kind |
| `Studio` | `studio.dfy` | `getOne`, `getMany`, the sort order, and the pagination lemmas |
| `MuxWebhook` | `webhook.dfy` | `Decide` and `Reconcile` (the handler as a function), `Post` (the handler as a method on the database), and one lemma per event |
| `VideosRouter` | `videos.dfy` | one specification function, one method on the database and its lemmas for each of `update`, `remove`, `create`, `restoreThumbnail` |
| `UploadThing` | `uploadthing.dfy` | the middleware `Authorize` and the completion hook `OnUploadComplete` |

Every state-changing procedure is a module-level method that takes the shared `db: Database`
and modifies it. Its `ensures` ties the result and the new rows to a function of the old rows:
`(r, db.videos) == Spec(old(db.videos), …)` for the router procedures and the webhook, and
`db.videos == UpdateRows(old(db.videos), …)` for the upload completion hook. The properties are
proved about those functions. The database methods also keep `Valid()`: unique video ids and unique
Clerk ids.

Outside inputs become parameters:

| outside input | modelled as |
|---|---|
| the Clerk session | `clerkUserId: Option<string>` |
| the `MUX_WEBHOOK_SECRET` environment variable | `secret: Option<string>` |
| the `mux-signature` header | `signature: Option<string>` |
| `new Date()` | `now: int` |
| the database's random id for a new row | `newId` |
| `mux.video.uploads.create` | the `MuxUpload` it returns |
| UploadThing's `uploadFilesFromUrl` | a function from URL to `Option<UploadedFile>` |

## Model

| member | source | states |
|---|---|---|
| Table.MatchesFramed | src/app/api/videos/webhook/route.ts:65 | a `where` clause reads only its own columns: two rows that agree on them are selected alike |
| Table.ApplyFrame | src/app/api/videos/webhook/route.ts:59-65 | a `set` clause writes no column outside the ones it names |
| Table.ApplyKeepsMatch | src/app/api/videos/webhook/route.ts:59-65 | a `set` clause that does not write the columns of a `where` does not change whether the row is selected |
| Table.ApplyIdempotent | src/app/api/videos/webhook/route.ts:87-97 | every `set` clause writes constants, so applying it twice equals applying it once |
| Table.UpdateRowsFrame | src/app/api/videos/webhook/route.ts:59-65 | `update … set a where w` changes only the rows `w` selects, in them only the columns `a` writes, keeps the row count, and keeps the primary key unique (in both directions) |
| Table.UpdateRowsNoMatch | src/modules/videos/server/procedures.ts:131-148 | an `update` that selects no row leaves the table as it was |
| Table.UpdateRowsIdempotent | src/app/api/videos/webhook/route.ts:59-65 | an `update` whose `set` leaves the `where` columns alone can be repeated without effect |
| Table.DeleteRowsNoMatch | src/modules/videos/server/procedures.ts:109-118 | a `delete` that selects no row leaves the table as it was |
| Table.UpdatedRowsStillMatch | src/modules/videos/server/procedures.ts:71-100 | after such an `update`, selecting with the same `where` finds exactly the rows `returning()` gave back |
| Table.ReturningApplies | src/modules/videos/server/procedures.ts:93-100 | `returning()` gives back, in table order, each selected row with the `set` applied |
| Table.ChangedOnlyTrans | src/modules/videos/server/procedures.ts:68-100 | two statements that each change only the selected rows in the columns `fs` together change no more, provided `fs` leaves the `where` columns alone |
| Table.DeleteRowsIdempotent | src/app/api/videos/webhook/route.ts:126-128 | deleting a second time removes nothing more |
| Table.MatchingRowsUniqueIds | src/modules/studio/server/procedures.ts:21-29 | a `select` on a table with a unique key returns rows with unique ids |
| Table.DeleteRowsUniqueIds | src/app/api/videos/webhook/route.ts:126-128 | the rows a `delete` leaves keep unique ids |
| Table.DeleteRowsSplit | src/app/api/videos/webhook/route.ts:126-128 | the rows removed (exactly those `w` selects) and the rows kept make up the old table as a multiset |
| Table.NothingSelected | src/modules/studio/server/procedures.ts:21-33 | a `where` that no row satisfies selects nothing |
| Table.OwnedSelectsAtMostOne | src/modules/studio/server/procedures.ts:24-29 | with a unique primary key, `id = … and userId = …` selects at most one row |
| Table.MatchingRows | src/modules/studio/server/procedures.ts:21-29 | `select … where w` returns exactly the rows `w` selects, and never more rows than the table holds |
| Table.DeleteRows | src/app/api/videos/webhook/route.ts:126-128 | after `delete … where w`, the table holds exactly the old rows that `w` does not select |
| Table.UpdateRows | src/app/api/videos/webhook/route.ts:59-65 | definition, no contract: `update … set a where w` rewrites each selected row by the `set` and keeps the others; its properties are in `UpdateRowsFrame`, `UpdateRowsIdempotent` and `UpdatedRowsStillMatch` |
| Table.Matches | src/app/api/videos/webhook/route.ts:65 | definition, no contract: the three `where` clauses, SQL equality, with a `NULL` column equal to no value |
| Table.Apply | src/app/api/videos/webhook/route.ts:59-64 | definition, no contract: one row after a `set` clause, with an `undefined` key left as it was; its frame is `ApplyFrame` |
| Table.Returning | src/modules/videos/server/procedures.ts:93-100 | `returning()` gives back one row per row the `where` selects; its contents are `ReturningApplies` |
| Table.Touches | src/app/api/videos/webhook/route.ts:59-65 | no `set` clause of the program writes `id` or `userId` |
| Db.UsersWithClerkId | src/app/api/uploadthing/core.ts:28-31 | `select from users where clerk_id = c` returns exactly the users with that Clerk id |
| Db.ClerkIdSelectsAtMostOne | src/db/schema.ts:5-10 | `clerk_id` being unique, the lookup finds at most one user |
| Db.NoUserWithClerkId | src/app/api/uploadthing/core.ts:28-32 | with no user holding that Clerk id, the lookup is empty |
| Db.Database.SelectVideos | src/modules/studio/server/procedures.ts:21-29 | returns the matching rows, exactly those `w` selects |
| Db.Database.UpdateVideos | src/modules/videos/server/procedures.ts:131-144 | the new table is the `update` of the old, changed only in the selected rows and written columns; returns the `returning()` rows; the constraints stay valid |
| Db.Database.DeleteVideos | src/modules/videos/server/procedures.ts:109-115 | the new table is the old one without the selected rows; those rows are returned, and kept plus returned rows make up the old table |
| Db.Database.InsertVideo | src/modules/videos/server/procedures.ts:177-185 | the row is appended exactly when no row has its id, and otherwise the table is unchanged |
| Db.Database.constructor | src/db/schema.ts:3-10 | a new database has no videos, the given users, and valid constraints |
| Studio.AfterCursor | src/modules/studio/server/procedures.ts:63-69 | definition, no contract: the cursor filter, `updatedAt` before the cursor's, or equal and `id` below it |
| Studio.Precedes | src/modules/studio/server/procedures.ts:72 | definition, no contract: the order `(updatedAt desc, id desc)`; its link to the cursor filter is `AfterKeyIsPrecedes` |
| Studio.Filter | src/modules/studio/server/procedures.ts:60-71 | definition, no contract: the `where` of `getMany`; its contents are `FilterMembers` |
| Studio.Insert | src/modules/studio/server/procedures.ts:72 | definition, no contract: one step of the sort; see `InsertPermutes` and `InsertOrdered` |
| Studio.SortDesc | src/modules/studio/server/procedures.ts:72 | definition, no contract: the `orderBy`; see `SortDescPermutes` and `SortDescOrdered` |
| Studio.Query | src/modules/studio/server/procedures.ts:57-72 | definition, no contract: the sorted selection before `limit`; its contents are `QueryProperties` |
| Studio.Pages | src/modules/studio/server/procedures.ts:75-82 | definition, no contract: `n` pages loaded one after the other, each from the previous page's `nextCursor`, on one table; see `PagesFollowQuery` |
| Studio.GetOne | src/modules/studio/server/procedures.ts:21-33 | returns a row of the table carrying both the id and the caller's user id; fails with NOT_FOUND exactly when the caller owns no such row |
| Studio.GetOneFindsOwnedRow | src/modules/studio/server/procedures.ts:21-35 | with a unique key, `getOne` returns the caller's row with that id |
| Studio.AfterKeyIsPrecedes | src/modules/studio/server/procedures.ts:63-69 | the cursor filter built from an item keeps exactly the rows that come after that item in `(updatedAt desc, id desc)` order |
| Studio.PrecedesTotal | src/modules/studio/server/procedures.ts:72 | rows with different ids are ordered one way or the other |
| Studio.FilterMembers | src/modules/studio/server/procedures.ts:60-71 | the `where` of `getMany` keeps exactly the caller's rows after the cursor, and adds none |
| Studio.FilterUniqueIds | src/modules/studio/server/procedures.ts:60-71 | the filtered rows keep unique ids |
| Studio.InsertPermutes | src/modules/studio/server/procedures.ts:72 | one step of the sort adds exactly the one row |
| Studio.SortDescPermutes | src/modules/studio/server/procedures.ts:72 | the sort is a permutation of its input |
| Studio.InsertOrdered | src/modules/studio/server/procedures.ts:72 | inserting a row with a new id into a strictly descending sequence keeps it strictly descending |
| Studio.SortDescOrdered | src/modules/studio/server/procedures.ts:72 | with unique ids, the sort by `(updatedAt desc, id desc)` is strict: no two rows tie |
| Studio.HeadOfOrdered | src/modules/studio/server/procedures.ts:72 | the head of a strictly ordered sequence precedes every other member |
| Studio.OrderedUnique | src/modules/studio/server/procedures.ts:72 | two strictly ordered sequences with the same members are equal, so the order determines the result |
| Studio.QueryProperties | src/modules/studio/server/procedures.ts:57-72 | the sorted selection holds exactly the caller's rows after the cursor, strictly descending |
| Studio.OrderedSuffix | src/modules/studio/server/procedures.ts:72 | in a strictly ordered sequence, the members after position `k` are the members `s[k]` precedes |
| Studio.QueryAfterItem | src/modules/studio/server/procedures.ts:63-82 | restarting the query from the key of its `k`-th row gives exactly the rows after that row |
| Studio.GetMany | src/modules/studio/server/procedures.ts:49-82 | `limit` outside 1..100 is refused; otherwise `items` are the first `limit` rows of the sorted selection, `nextCursor` is present exactly when more rows qualify, and it is then the key of the last item of a full page |
| Studio.GetManyItemsQualify | src/modules/studio/server/procedures.ts:57-76 | every item belongs to the caller and lies strictly after the cursor, and the items are strictly in `(updatedAt desc, id desc)` order |
| Studio.NextPageContinues | src/modules/studio/server/procedures.ts:57-82 | the page read with `nextCursor` continues the first page: together they are the next prefix of the same query, and every item of the first page precedes every item of the second |
| Studio.PagesFollowQuery | src/modules/studio/server/procedures.ts:57-82 | the items of `n` pages, each loaded from the previous page's `nextCursor`, are exactly the first `n * limit` rows of the sorted query |
| Studio.PagesFullPage | src/modules/studio/server/procedures.ts:73-82 | the inductive step: a full first page followed by pages that follow the restarted query follows the query |
| Studio.PagesStep | src/modules/studio/server/procedures.ts:75-82 | a full page is followed by the pages read from its last item's key |
| Studio.PagesLast | src/modules/studio/server/procedures.ts:75-82 | a page without `nextCursor` is the last one, and the pages so far are the whole query |
| Studio.OrderedRowsUniqueIds | src/modules/studio/server/procedures.ts:72 | strictly ordered rows of a table with a unique key have unique ids |
| Studio.PagesVisitEachOwnedRowOnce | src/modules/studio/server/procedures.ts:57-82 | on a table that does not change between the page loads, paging from the start never shows a video twice, shows only the caller's videos, and after enough pages has shown every one of them |
| Studio.PrefixOfOrderedRows | src/modules/studio/server/procedures.ts:73-76 | a prefix of the ordered query rows has unique ids and holds only query rows |
| Schema.MuxThumbnailUrl | src/app/api/videos/webhook/route.ts:82 | definition, no contract: `https://image.mux.com/<playback id>/thumbnail.jpg`, also used at src/modules/videos/server/procedures.ts:84 |
| Schema.MuxPreviewUrl | src/app/api/videos/webhook/route.ts:83 | definition, no contract: `https://image.mux.com/<playback id>/animated.gif` |
| Schema.Truthy | src/app/api/videos/webhook/route.ts:55 | definition, no contract: JavaScript truthiness of an optional string (`null`, `undefined`, `""` are falsy) |
| MuxWebhook.Decide | src/app/api/videos/webhook/route.ts:26-153 | definition, no contract: the guards and the `switch`, giving an early outcome or the one statement each event issues |
| MuxWebhook.Effect | src/app/api/videos/webhook/route.ts:59-150 | definition, no contract: the table after the issued `update` or `delete` |
| MuxWebhook.Reconcile | src/app/api/videos/webhook/route.ts:25-156 | definition, no contract: the whole request, as outcome and new table; its properties are the event lemmas below |
| MuxWebhook.FirstPlaybackId | src/app/api/videos/webhook/route.ts:72 | `playback_ids?.[0].id` throws exactly for an empty array; otherwise it is the first entry's id, or absent with no array |
| MuxWebhook.DurationMs | src/app/api/videos/webhook/route.ts:85 | 0 when `duration` is absent or zero; otherwise `duration * 1000` rounded half up |
| MuxWebhook.Post | src/app/api/videos/webhook/route.ts:25-156 | the handler's answer and the new table equal `Reconcile` of the old table; the constraints stay valid |
| MuxWebhook.NoSecretThrows | src/app/api/videos/webhook/route.ts:26-28 | without the signing secret every request throws and writes nothing |
| MuxWebhook.NoSignatureUnauthorized | src/app/api/videos/webhook/route.ts:33-35 | without a `mux-signature` header the answer is 401 "No signature found" and nothing is written |
| MuxWebhook.MissingUploadIdRejected | src/app/api/videos/webhook/route.ts:55-57 | `created`, `ready`, `errored`, `deleted` without `upload_id` answer 400 "Missing upload Id" and write nothing; lines 74-76, 105-107 and 122-124 give the same guard for the other three events |
| MuxWebhook.EarlyAnswersWriteNothing | src/app/api/videos/webhook/route.ts:25-156 | every answer other than 200 leaves the table as it was, and every request that reaches a statement answers 200 |
| MuxWebhook.AcceptedKeepsKeys | src/app/api/videos/webhook/route.ts:50-153 | no event adds a row, changes a row's id or owner, or breaks the primary key |
| MuxWebhook.CreatedSetsAsset | src/app/api/videos/webhook/route.ts:52-66 | `created` sets `muxAssetId` and `muxStatus` on exactly the rows with that upload id and changes nothing else |
| MuxWebhook.ReadyWithoutPlaybackId | src/app/api/videos/webhook/route.ts:78-80 | `ready` without a first playback id answers 400 "Missing playback ID" and writes nothing |
| MuxWebhook.ReadyWithEmptyPlaybackIdsThrows | src/app/api/videos/webhook/route.ts:72 | `ready` with an empty `playback_ids` array throws before any other check and writes nothing |
| MuxWebhook.ReadySetsPlayback | src/app/api/videos/webhook/route.ts:70-98 | `ready` writes status, playback id, asset id, the two `image.mux.com` URLs built from the playback id, and the rounded duration on the rows with that upload id, and nothing else |
| MuxWebhook.ErroredSetsStatus | src/app/api/videos/webhook/route.ts:102-115 | `errored` changes only `muxStatus`, and only on the rows with that upload id |
| MuxWebhook.DeletedRemovesUpload | src/app/api/videos/webhook/route.ts:119-129 | `deleted` removes exactly the rows with that upload id; the rows kept and the rows removed make up the old table |
| MuxWebhook.TrackReadySetsTrack | src/app/api/videos/webhook/route.ts:133-152 | `track.ready` answers 400 without `asset_id`; otherwise it sets `muxTrackId` and `muxStatus` on the rows with that asset id and changes nothing else |
| MuxWebhook.UnknownEventIgnored | src/app/api/videos/webhook/route.ts:50-155 | any other event type answers 200 and writes nothing |
| MuxWebhook.RedeliveryIdempotent | src/app/api/videos/webhook/route.ts:50-155 | a second delivery of the same event gives the same answer and leaves the table as the first left it |
| VideosRouter.UpdateSpec | src/modules/videos/server/procedures.ts:127-150 | definition, no contract: `update` as result and new table; see `UpdateWithoutId`, `UpdateNotFound`, `UpdateChangesOwnedRow` |
| VideosRouter.RemoveSpec | src/modules/videos/server/procedures.ts:109-120 | definition, no contract: `remove` as result and new table; see `RemoveDeletesOwnedRow` |
| VideosRouter.NewVideo | src/modules/videos/server/procedures.ts:177-184 | definition, no contract: the inserted row, the caller's, "Untitled", "waiting", with the upload id |
| VideosRouter.CreateSpec | src/modules/videos/server/procedures.ts:177-190 | definition, no contract: `create` as result and new table; see `CreateAppendsRow` |
| VideosRouter.Cleared | src/modules/videos/server/procedures.ts:68-80 | definition, no contract: the first write of `restoreThumbnail`, clearing URL and key when a key is stored |
| VideosRouter.RestoreSpec | src/modules/videos/server/procedures.ts:59-102 | definition, no contract: `restoreThumbnail` as result and new table; see the `Restore…` lemmas |
| VideosRouter.Update | src/modules/videos/server/procedures.ts:122-151 | the result and the new table equal `UpdateSpec` of the old table; the constraints stay valid |
| VideosRouter.UpdateWithoutId | src/modules/videos/server/procedures.ts:127-129 | without an id, BAD_REQUEST and nothing written |
| VideosRouter.UpdateNotFound | src/modules/videos/server/procedures.ts:131-148 | NOT_FOUND exactly when the caller owns no row with that id, and then the table is unchanged |
| VideosRouter.UpdateChangesOwnedRow | src/modules/videos/server/procedures.ts:131-150 | only the five editable columns of the caller's row with that id change; on success that stored row becomes the row returned, which has each given key written, each absent key kept, and `updatedAt` set to now |
| VideosRouter.Remove | src/modules/videos/server/procedures.ts:104-121 | the result and the new table equal `RemoveSpec` of the old table; the constraints stay valid |
| VideosRouter.RemoveDeletesOwnedRow | src/modules/videos/server/procedures.ts:109-120 | deletes exactly the caller's row with that id and returns it, keeping every other row; without such a row, NOT_FOUND and nothing deleted |
| VideosRouter.Create | src/modules/videos/server/procedures.ts:153-191 | the result and the new table equal `CreateSpec` of the old table; the constraints stay valid |
| VideosRouter.CreateAppendsRow | src/modules/videos/server/procedures.ts:177-190 | `create` succeeds exactly when no row has the new id; then one row is appended (the caller's, "Untitled", status "waiting", with the upload's id) and returned with the upload URL, existing rows stay and the key stays unique; otherwise nothing changes |
| VideosRouter.ClearedSelectsAsBefore | src/modules/videos/server/procedures.ts:68-80 | clearing the thumbnail does not change how many rows the owner's `where` selects |
| VideosRouter.RestoreThumbnail | src/modules/videos/server/procedures.ts:54-103 | the result and the new table equal `RestoreSpec` of the old table; the constraints stay valid |
| VideosRouter.RestoreNotOwned | src/modules/videos/server/procedures.ts:59-66 | when the caller owns no row with that id, NOT_FOUND and nothing written |
| VideosRouter.RestoreClearsBeforeBadRequest | src/modules/videos/server/procedures.ts:68-82 | with a stored thumbnail key but no playback id, the result is BAD_REQUEST, yet the row's thumbnail URL and key stay cleared, and nothing else changed |
| VideosRouter.RestoreUploadFailsAfterClearing | src/modules/videos/server/procedures.ts:68-90 | when the upload gives no data, INTERNAL_SERVER_ERROR; only the thumbnail columns of the owned row changed, and they are cleared exactly when a key was stored |
| VideosRouter.RestoreBadRequestWithoutKey | src/modules/videos/server/procedures.ts:68-82 | with no stored key and no playback id, BAD_REQUEST and nothing written |
| VideosRouter.RestoreSetsUploadedThumbnail | src/modules/videos/server/procedures.ts:82-102 | on success the owned row's thumbnail URL and key are those of the file uploaded from the playback id's Mux thumbnail; only those two columns of that row change, and the row returned is the row as written |
| VideosRouter.RestoreFrame | src/modules/videos/server/procedures.ts:68-100 | the two writes together change only the two thumbnail columns of the owned row |
| VideosRouter.OwnedRowIsFound | src/modules/videos/server/procedures.ts:59-66 | the lookup finds exactly the caller's row with that id |
| VideosRouter.ClearedKeepsOwnedRow | src/modules/videos/server/procedures.ts:68-80 | after the clearing, the owner's `where` still selects the one owned row, in its place, with at most its thumbnail cleared |
| UploadThing.Authorize | src/app/api/uploadthing/core.ts:24-35 | "Unauthorized" exactly when there is no Clerk user id or no local user has it; otherwise the metadata carries that user and the video id |
| UploadThing.AuthorizedUserIsUnique | src/app/api/uploadthing/core.ts:28-34 | with `clerk_id` unique, the user handed on is the only one with that Clerk id |
| UploadThing.OnUploadComplete | src/app/api/uploadthing/core.ts:36-46 | the new table is the `update` of `thumbnailUrl` on the row `(videoId, user.id)`, and `uploadedBy` is the authorised user's id |
| UploadThing.CompletionSetsThumbnailUrl | src/app/api/uploadthing/core.ts:37-45 | completion changes only `thumbnailUrl`, only on the authorised user's video with that id, and gives it the file's URL |
| UploadThing.CompletionChangesAtMostOneRow | src/app/api/uploadthing/core.ts:40-45 | with a unique key, completion changes at most one row |

## Left out

- The React and Next.js UI, the intersection-observer hook, the Clerk route middleware, and
  the logging, rate-limiting and build configuration are not part of this model. They render
  or wire up the procedures and hold no table logic of their own.
- `categoriesRouter` is not part of this model. It selects every category and states nothing
  about `videos`.
- `generateThumbnail`, `generateTitle` and `generateDescription` are left out. They only
  trigger an outside workflow and return its run id.
- Webhook signature verification (`mux.webhooks.verifySignature`,
  src/app/api/videos/webhook/route.ts:40-46) is a vendor call that the model treats as
  passing. The source does not check its result, and an invalid signature that made it
  throw would end the request before any write.
- The model reads `request.json()` as an already-parsed `Payload`. A body that fails to
  parse is out of scope.
- `UTApi.deleteFiles` in `restoreThumbnail` is left out: it changes no table. If it throws
  (src/modules/videos/server/procedures.ts:70), the request ends before the clearing write
  of lines 71-79; the model always goes on to clear.
- The Mux upload and `uploadFilesFromUrl` are parameters whose results the model takes as
  given.
- MuxWebhook.DurationMs: computes in exact real arithmetic, so the floating-point error of
  `data.duration * 1000` is not modelled.
- `new Date()`, the database's random ids and the Clerk session are parameters (`now`,
  `newId`, `clerkUserId`). The clock's resolution and the Date-to-timestamp conversion are
  not modelled.
- The input validation by zod is not modelled. That covers the uuid format of ids, which are
  `nat` here, and non-integer `limit` values, where only the 1..100 range check is kept.
  Cursor timestamps are integers.
- The `videos` table definition is not part of this model. Its columns are reconstructed from
  the reads and writes of the procedures. The defaults a new row takes (visibility
  private, no description or category, duration 0) are assumptions of this model.
- Studio.PagesVisitEachOwnedRowOnce: holds for one table that stays the same while the pages
  are loaded, as do `PagesFollowQuery` and `NextPageContinues`. A write between two loads (an `update` that moves a row's `updatedAt` ahead of the
  cursor) can make a later page skip that row; the model does not promise anything then.
- Concurrency between requests is not modelled. Each procedure is taken as one atomic sequence of
  statements on the database.
