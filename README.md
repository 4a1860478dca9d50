# Chat backend route handlers as operations on in-memory tables

This project models the route handlers of the chat application's Express backend
(`project/backend/index.js`). Each handler is a short sequence of MySQL statements. Here each
table is a sequence of rows:

- `profiles`
- `room_participants`
- `room_presence`
- `online_status`
- `private_messages`
- `blocked_users`

The SQL statements become exact operations on those sequences:

- `INSERT ... ON DUPLICATE KEY UPDATE` is an upsert on the table's key.
- `INSERT IGNORE` inserts only when the row is absent.
- `DELETE` and `UPDATE ... WHERE` are filters and point-wise updates.
- `JOIN`, `GROUP BY`, `ORDER BY ... DESC` and `LIMIT` are functions over the rows.

`NOW()` is an integer parameter `now`, in seconds. The request fields a handler reads are
`Option<int>` values. `None` stands for a value the handler rejects: a JavaScript-falsy value for a
`!x` test, or `NaN` for an `isNaN(parseInt(x))` test.

The write routes (the heartbeat, leave, the login status upsert, both message sends, mark-as-read,
block, unblock and the profile update) are methods of `Backend.Database`. That class holds the
tables as fields. Each method's contract gives:

- the status it answers with: 200, 201, 400, 403, 404 or 409;
- the new state of every table it may change, as a function of the old state.

The read routes are functions over the tables:

- online participants;
- `/online-users`;
- the private-conversation list;
- the membership check;
- the block flags of the profile view.

Lemmas about these functions state what the routes promise:

- the exact set of users listed, the 30-second window and the limit of ten;
- the order of the rows, and one row per counterpart;
- counts, and "nothing else changes";
- that repeating an operation gives the same tables;
- that the profile update's "nothing to update" 400 cannot occur.

The table definitions are not part of this model, so the keys are assumptions read off the
statements, and `Backend.Database.Valid()` collects them:

- one profile per user, since signup (lines 299-323) is the only route that inserts a profile;
- distinct `room_participants` rows, the key `INSERT IGNORE` relies on;
- one `room_presence` row per (room, user) and one `online_status` row per user, the keys that
  `ON DUPLICATE KEY UPDATE` relies on;
- one `blocked_users` row per ordered pair, which the 409 check of `POST /block-user` keeps;
- message ids below the next auto-increment id.

Every write method preserves `Valid()`. The joins on `profiles.user_id` are modelled as attaching
the one profile of a user (`ProfileOf`), which is what SQL returns under the first of these keys.

Modules, in dependency order:

- `Tables`: row types, statuses, and the profile lookup. `JOIN profiles ON user_id` is `ProfileOf`.
- `Ordering`: `ORDER BY key DESC` and `LIMIT n`. The sort is proved to return a permutation that is
  non-increasing in the key. Beyond that, ties are left unspecified, as in MySQL.
- `Presence`: room membership, the presence upsert and delete, and online participants.
- `OnlineStatus`: the login upsert and `/online-users`.
- `Conversations`: the conversation aggregation and mark-as-read.
- `Blocks`: block lookups, the unblock delete and the profile view's flags.
- `PrivateMessages`: the accept/refuse decision of both send routes.
- `ProfileUpdate`: the SET-clause builder of `PUT /profile/:userId` and the update it issues.
- `Backend`: the `Database` class with one method per write route.

Two assumptions about the database:

- `is_read` is unread (false) on insert. The handlers never set it, and the table definition is not
  part of this model.
- `affectedRows` counts matched rows, as with the `FOUND_ROWS` client flag.

## Model

| member | source | states |
|---|---|---|
| Tables.ProfileOf | project/backend/index.js:718-726 | The profile found for a user exists exactly when some row has that `user_id`. When found, it is a row of the table with that `user_id`. |
| Tables.ProfileOfUnique | project/backend/index.js:718-726 | With at most one profile per user, the lookup returns that user's one profile. |
| Ordering.SortDesc | project/backend/index.js:644 | `ORDER BY ... DESC` returns a permutation of its input (the same multiset of rows, so the same length) that is non-increasing in the key. |
| Ordering.SortDescDistinct | project/backend/index.js:1092 | Sorting keeps rows distinct when they were distinct. |
| Ordering.Limit | project/backend/index.js:645 | `LIMIT n` returns the first min(n, \|s\|) rows, in order, so each row at most as often as in its input. |
| Ordering.TopRows | project/backend/index.js:644-645 | After sorting, `LIMIT n` stays ordered and drops nothing when at most n rows exist. Every row it drops has a key no greater than the last row kept. |
| Ordering.LimitDropsOnlyLower | project/backend/index.js:644-645 | A row of a sorted list that `LIMIT n` drops means n rows were kept, the last of them with a key at least as high. |
| Presence.InsertIgnore | project/backend/index.js:469-472 | After `INSERT IGNORE` the membership row is present. Every earlier row is kept, no other row is added, and distinct rows stay distinct. |
| Presence.IsMember | project/backend/index.js:1301-1307 | `isMember` is true exactly when the (room, user) row is in `room_participants`. |
| Presence.InsertIgnoreEnrolls | project/backend/index.js:469-472 | A heartbeat makes the user a member of the room and keeps every existing membership. |
| Presence.Upsert | project/backend/index.js:475-480 | After the presence upsert, the keyed `last_seen` of (room, user) is `now`. Every other key keeps its value (or its absence). The table grows by one row only when the key was new, and the unique key is preserved. |
| Presence.UpsertSingleRow | project/backend/index.js:475-480 | After a heartbeat there is exactly one `room_presence` row for (room, user), and it carries `last_seen = now`. |
| Presence.UpsertIdempotent | project/backend/index.js:475-480 | Two heartbeats leave the same table as a single heartbeat at the later time. |
| Presence.Delete | project/backend/index.js:529-532 | The presence delete removes exactly the rows of (room, user). Every other key keeps its `last_seen`, and the unique key is preserved. |
| Presence.OnlineBoundary | project/backend/index.js:495-506 | The 30-second window is inclusive: seen exactly 30 seconds ago is online, seen 31 seconds ago is not. |
| Presence.OnlineWindowMonotone | project/backend/index.js:495-506 | A later heartbeat never takes a user offline, a user online now was online at every earlier moment, and a heartbeat at now counts as online. |
| Presence.OnlineParticipants | project/backend/index.js:498-508 | (Corrected join, see ## Findings.) Every entry is the username and avatar of a user who has a profile. The result has no more entries than presence rows. |
| Presence.OnlineParticipantsExact | project/backend/index.js:495-508 | (Corrected join, see ## Findings.) A user is listed exactly when the room has a presence row of theirs with now − last_seen ≤ 30, and the user has a profile. |
| Presence.OnlineParticipantsDistinct | project/backend/index.js:498-508 | (Corrected join, see ## Findings.) Under the (room_id, user_id) key, no user is listed twice. |
| Presence.LeaveExcludesAtOnce | project/backend/index.js:529-532 | (Corrected join, see ## Findings.) Right after a leave, the room's list is the previous list without that user. The lists of other rooms are unchanged. |
| Presence.HeartbeatShowsOnline | project/backend/index.js:475-507 | (Corrected join, see ## Findings.) Right after a heartbeat, the user is listed in the room exactly when they have a profile. |
| Presence.ProfileWithRowId | project/backend/index.js:503-504 | The profile whose own key `id` equals the value, if any. |
| Presence.OnlineParticipantsAsWritten | project/backend/index.js:498-508 | The query as written joins on `profiles.id` and returns `u.id`. Every id it reports is the row key of a profile. |
| Presence.AsWrittenMissesFreshUser | project/backend/index.js:503-504 | Take a fresh presence row of user 2, whose profile row has id 1. The query as written lists nobody, while the join on `user_id` lists user 2. |
| OnlineStatus.RecordLogin | project/backend/index.js:269-274 | After the login upsert, the user's row is (online = TRUE, last_active = now). Every other user's row is unchanged, a row is added only for a new user, and the user_id key stays unique. |
| OnlineStatus.Listed | project/backend/index.js:640-643 | The joined rows are exactly the status rows that are online, are not the excluded user, and have a profile. |
| OnlineStatus.TopOnline | project/backend/index.js:639-646 | `/online-users` selects min(10, n) rows, n being the number of listable rows. They are a sub-multiset of the listable rows, so no row fills two slots. Every one is a row of `online_status` that is online, is not the excluded user, and has a profile. |
| OnlineStatus.TopOnlineOrdered | project/backend/index.js:644-645 | The rows are non-increasing in `last_active`. |
| OnlineStatus.TopOnlineComplete | project/backend/index.js:644-645 | A listable row that is left out means 10 rows were returned, each at least as recent as the left-out row. |
| OnlineStatus.OnlineUsers | project/backend/index.js:629-653 | 400 (None) exactly when `exclude` is missing. Otherwise there is one entry per selected row, in order, at most 10. Each entry is an online user other than the excluded one, with a profile. |
| Conversations.Counterpart | project/backend/index.js:1078-1081 | The CASE expression gives, for a message that involves the viewer, the other party of that message: the receiver when the viewer sent it, otherwise the sender. |
| Conversations.GroupIsPair | project/backend/index.js:1076-1090 | A message falls in the group of `other` (via the CASE expression) exactly when it is between the pair, in either direction. |
| Conversations.Counterparts | project/backend/index.js:1076-1090 | The group keys are distinct. They are exactly the counterparts of the viewer's messages. |
| Conversations.PairMessages | project/backend/index.js:1070 | The messages between the pair in either direction. The list is non-empty for a counterpart. |
| Conversations.Latest | project/backend/index.js:1070 | A message of maximal `created_at` among those given. |
| Conversations.UnreadCount | project/backend/index.js:1071 | The count of unread messages from sender to receiver. It is zero exactly when there are none. |
| Conversations.RowFor | project/backend/index.js:1067-1091 | The row of a group is keyed by its counterpart. What its other columns mean is stated by RowForMeaning. |
| Conversations.RowForMeaning | project/backend/index.js:1067-1091 | A group's row carries the maximal `created_at` of the pair and the content of a message at that time. It also carries the unread count from the counterpart to the viewer and the counterpart's profile. |
| Conversations.Rows | project/backend/index.js:1086-1091 | The inner join keeps at most one row per group, and every row is keyed by one of the group counterparts. |
| Conversations.RowsDistinct | project/backend/index.js:1090 | The grouped rows have one row per counterpart. |
| Conversations.Conversations | project/backend/index.js:1066-1093 | The list holds exactly the joined group rows, each as often as among them, and is non-increasing in `last_message_at`. |
| Conversations.ConversationsCover | project/backend/index.js:1075-1093 | The list has a row for o exactly when o is a counterpart of one of the viewer's messages and has a profile. |
| Conversations.ConversationsOneRowEach | project/backend/index.js:1090-1093 | No two rows of the list have the same counterpart. |
| Conversations.ConversationsRowsMean | project/backend/index.js:1067-1093 | Every row of the list has the meaning stated by RowForMeaning. |
| Conversations.MarkRead | project/backend/index.js:1140-1143 | The update flips `is_read` to 1 on exactly the messages from senderId to receiverId. Every other field and every other message is unchanged. |
| Conversations.MarkReadClears | project/backend/index.js:1140-1144 | After the update, no unread message from senderId to receiverId remains, so a second call affects 0 rows. |
| Conversations.MarkReadKeepsOthers | project/backend/index.js:1140-1143 | The unread count of every other ordered pair is unchanged. |
| Conversations.MarkReadKeepsCounterparts | project/backend/index.js:1140-1143 | Marking messages read keeps every conversation group. |
| Conversations.MarkReadZeroesRow | project/backend/index.js:1140-1143 | After the viewer marks a counterpart's messages, that counterpart's row reports 0 unread. |
| Conversations.SendAddsUnread | project/backend/index.js:970-975 | A newly inserted (unread) message raises the receiver's unread count for the sender by one. |
| Blocks.HasBlocked | project/backend/index.js:949-962 | A directional lookup finds a row exactly when (blocker, blocked) is a row of `blocked_users`. The same lookup appears at lines 752-762 and 1227-1230. |
| Blocks.BlockedEitherWay | project/backend/index.js:1013-1019 | The image route's query finds a row exactly when the pair is in `blocked_users` in one order or the other. |
| Blocks.EitherWayIsBothChecks | project/backend/index.js:1013-1019 | The image route's combined block query refuses exactly what the text route's two directional queries refuse. |
| Blocks.PairCount | project/backend/index.js:1272-1277 | The unblock delete's `affectedRows` is 0 exactly when the ordered pair is not blocked. It is at most 1 under the one-row-per-pair invariant. |
| Blocks.RemovePair | project/backend/index.js:1272-1275 | The delete removes exactly the rows of the ordered pair: the length shrinks by their count, the table is unchanged when there were none, and row uniqueness is preserved. |
| Blocks.UnblockLeavesOthers | project/backend/index.js:1272-1275 | After the unblock, the ordered pair is no longer blocked. Every other ordered pair, the reverse direction included, keeps its status. |
| Blocks.ProfileBlockFlags | project/backend/index.js:751-763 | `isBlockedByCurrentUser` is set exactly when there is a current user c (not absent, NaN or 0) and (c, userId) is a row of `blocked_users`. `hasBlockedCurrentUser` is set exactly when there is such a c and (userId, c) is a row. |
| Blocks.ViewProfile | project/backend/index.js:718-726 | 404 (None) exactly when the user has no profile. Otherwise the view shows that user's profile. |
| PrivateMessages.TextSend | project/backend/index.js:939-966 | 400 exactly when an id is NaN or the content is falsy. The message is accepted exactly when it is valid and neither direction is blocked. The sender-blocked-receiver refusal comes first. |
| PrivateMessages.ImageSend | project/backend/index.js:999-1022 | 400 without a file, checked first. 400 on a NaN id. The message is accepted exactly when the file and ids are present and no block exists in either direction. |
| PrivateMessages.TextAndImageAgree | project/backend/index.js:1013-1022 | Given a file and non-empty content, both routes answer every pair of ids with the same status. |
| PrivateMessages.FlagsPredictRefusal | project/backend/index.js:946-966 | A 403 on sending happens exactly when one of the block flags the profile view shows the sender is set. |
| ProfileUpdate.ColumnOrderComplete | project/backend/index.js:825-838 | Each editable column is tested by the builder. |
| ProfileUpdate.Supplied | project/backend/index.js:825-838 | The builder's clauses name exactly the columns whose body field is not `undefined`. |
| ProfileUpdate.SuppliedValues | project/backend/index.js:825-838 | One value per supplied column, in the same order: the value the body supplies for it. |
| ProfileUpdate.PushIfDefined | project/backend/index.js:825 | One `if (x !== undefined)` test grows the two lists from the first n columns' clauses and values to those of the first n + 1. |
| ProfileUpdate.BuildUpdate | project/backend/index.js:821-848 | The clauses are those of the supplied columns, then `updated_at = NOW()`. The values are the supplied values, then userId. The clause list is never empty, so the 400 at lines 843-845 is unreachable. The query's `?` count equals the number of values. |
| ProfileUpdate.QueryPlaceholders | project/backend/index.js:847 | The query built from k supplied columns has k + 1 placeholders. |
| ProfileUpdate.BindingPairsColumnsWithValues | project/backend/index.js:825-848 | Positional binding: the k-th clause names the k-th supplied column and the k-th value is the one supplied for it. The last value is userId. |
| ProfileUpdate.Patched | project/backend/index.js:847-850 | After `SET`, supplied columns take the supplied value and other columns keep theirs. `updated_at` becomes now, and both row keys are kept. |
| ProfileUpdate.ApplyUpdate | project/backend/index.js:847-866 | Every row of that user is patched and every other row is unchanged. User ids stay unique. The profile read back for the user is the patched one, and every other user reads back unchanged. |
| Backend.Database.Login | project/backend/index.js:268-274 | Only `online_status` changes. It becomes the login upsert, and the user's status is (online, now). |
| Backend.Database.Heartbeat | project/backend/index.js:459-488 | 400 with no change when either id is missing. Otherwise 200, with the membership inserted if absent and the presence upserted. |
| Backend.Database.Leave | project/backend/index.js:521-539 | 400 with no change when either id is missing. Otherwise 200, with that presence row deleted. Membership is untouched. |
| Backend.Database.Insert | project/backend/index.js:970-975 | Appends one message with the next id, the accepted sender and receiver, the content, `created_at = now`, and unread. The id is fresh. |
| Backend.Database.SendMessage | project/backend/index.js:933-984 | The status is TextSend's. On 201, exactly that message is appended. On 400 or 403, nothing changes. |
| Backend.Database.SendImage | project/backend/index.js:989-1047 | The status is ImageSend's. On 201, exactly the image message is appended. On 400 or 403, nothing changes. |
| Backend.Database.MarkAsRead | project/backend/index.js:1129-1151 | 400 with no change when an id is missing. Otherwise MarkRead is applied, and the reported count is the number of unread messages it flips. |
| Backend.Database.Block | project/backend/index.js:1210-1250 | 400 exactly on a NaN id or a self-block. 409 with no change when the ordered pair exists. Otherwise 200 with one row appended. |
| Backend.Database.Unblock | project/backend/index.js:1255-1291 | 400 exactly on a NaN id or a self-unblock, with no change. Otherwise the pair's rows are deleted, with 404 when there were none. |
| Backend.Database.UpdateProfile | project/backend/index.js:803-866 | The table becomes ApplyUpdate. 404 with no change exactly when the user had no profile. Otherwise 200 with the patched profile read back, which holds in each supplied column the value the SET list binds to it. |

## Left out

- Authentication: password hashing, JWT signing and checking, and the `authenticate` middleware. These are calls into cryptographic libraries. Login is modelled only by its status upsert, which comes after the credentials are accepted.
- Password reset by email, and the mailer. This is I/O.
- File uploads: storage, generated file names, and the public URL of an uploaded image. These involve the filesystem and randomness. `SendImage` takes the URL as a parameter and models only the file-present check, the id checks, the block check and the insert.
- CORS, body parsing, the connection pool, server start, console logging, and every 500 path for a failed query or connection.
- Login before the upsert. If the status upsert fails, login ignores the error, and that path is not modelled.
- Parsing and serialising `interests` with `JSON.parse`/`JSON.stringify`, and the comma-split fallback after update. These are foreign calls: the patch carries the already-serialised text.
- The response-side `avatar_url || ''` default, and the `id` aliasing of `user_id` in responses.
- `/users/search`: `LIKE` matching depends on the database collation.
- The second `POST /rooms/:roomId/join` (line 1318). The first join route at line 781 shadows it, and that first route is not part of this model: it is a single `INSERT IGNORE` already modelled as `Presence.InsertIgnore`.
- Routes that are not part of this model:
  - `/users/:userId/rooms`, which reads a `room_participant` table nothing writes;
  - `/blocks`, which writes a `user_blocks` table nothing reads;
  - room listing and creation, room messages, reports, the avatar update, the participant list and private-message history, which are single pass-through statements.
- The frontend.
- `ORDER BY` tie-breaking. Ties in `last_active`, `last_message_at` and the latest message's `created_at` are left unspecified, as in MySQL. The contracts promise only a permutation in non-increasing order, and "some message of maximal `created_at`".
- Type coercions. Ids are mathematical integers. String ids, numeric strings and MySQL's string-to-number comparison are not modelled, nor is a non-string `content`. Only its truthiness decides.
- The table keys that `Backend.Database.Valid()` collects are assumed, because the schema is not part of this model. With two profiles for one user, SQL's joins would return one row per profile, while `ProfileOf` attaches only the first. The join functions (`ProfileOf`, `OnlineParticipants`, `Listed`, `Rows`, `ViewProfile`) therefore match SQL only under `ProfileUsersUnique`, which every write method preserves.
- Concurrency. Each handler is modelled as one step that no other request interleaves with. `Backend.Database.Block` checks for the pair and then inserts it (lines 1227-1240); two concurrent requests could both pass the check, so `PairsUnique` relies on this assumption.
- Backend.Database.MarkAsRead: reports the number of rows the update flips. This equals mysql2's `affectedRows` because the `WHERE` already requires `is_read = 0`.
- Backend.Database.UpdateProfile: treats `affectedRows` as the number of matched rows, as with mysql2's default `FOUND_ROWS` flag. `updated_at = NOW()` changes every matched row in any case.
- Backend.Database.Heartbeat: `roomId` is a route parameter and is never empty in practice. It still carries a `None` case so that the handler's `!roomId` test is modelled.

## Findings

| source | as written | input that shows it | evidently intended | confidence | as-written member | corrected member |
|---|---|---|---|---|---|---|
| project/backend/index.js:502-504 | The online-participants query joins `profiles u ON u.id = rp.user_id` and returns `u.id`. It matches a user id against the profile's own row key, while every other join in the file uses `profiles.user_id`. | A profile row with `id = 1` for `user_id = 2`, and a presence row of user 2 in the room with `last_seen = now`. The query lists nobody, though user 2 is online. | Join on `u.user_id = rp.user_id`, returning `u.user_id`. | not executed | Presence.OnlineParticipantsAsWritten (counterexample: Presence.AsWrittenMissesFreshUser) | Presence.OnlineParticipants (proved: Presence.OnlineParticipantsExact) |
