# chatify-backend core, modelled in Dafny

This project models the authorization and bookkeeping core of the chatify
Laravel backend. There are two sides, chats and statuses.

- **Chats.** A user creates a private or group chat and becomes its first
  member. Group admins add and remove members. Members read the message
  list 50 to a page, newest first, send messages, and mark the chat read.
- **Statuses.** A user posts a status that lives 24 hours. A per-author
  privacy row (`all`, `selected`, `except`) decides who may see the
  author's statuses. A view by an admitted viewer is recorded. Authors
  delete their statuses (with their media and views), list their own
  statuses, and change their privacy row.

Database tables are sequences of row datatypes, or a map for `chats`.
Eloquent relations are filters over those sequences. The two controllers
are classes over the tables: `ChatController.ChatStore` and
`StatusController.StatusStore`. Their methods update the tables in place.
Each method's contract states the whole new state: the answer code, and
every table given as a function of the old tables. The lemmas then prove
what those functions guarantee.

Environment inputs become parameters:

- the authenticated user (`requester`, `viewer`);
- the clock (`now`, in seconds);
- the set of existing user ids that `exists:users,id` consults (`directory`);
- the uploaded file, as the storage path it would get (`file`, `media`).

HTTP answers are the `Common.Code` values. `Ok` is 200 and `Created` is
201. `Unauthorized` is the controllers' 403 and `Gone` is 410. `Invalid` is
a failed `validate` (422). `NotFound` is route model binding finding no row
(404). `ServerError` is the call on a missing privacy row in `show`.

Files:

- `common.dfy` holds `Option`, `Code`, the generic `Filter` with its
  lemmas, and `NewestFirst`.
- One file per model: `status_privacy.dfy`, `status.dfy`, `chat.dfy`,
  `message.dfy`.
- One file per controller: `chat_controller.dfy`, `status_controller.dfy`.
- `scenarios.dfy` replays three request sequences against the stores. Their
  outcomes are postconditions.

### Behaviour of the code worth knowing

- A missing privacy row. `show` calls `canUserViewStatus` on the null
  result of `$status->privacy` (StatusController.php:87), which is an
  error, while `index`'s `whereHas` (line 19) simply drops the author. The
  model answers `ServerError` in `show` and leaves such statuses out of the
  listing (`NoPrivacyRowNeverListed`). Statuses stored by the controller
  always come with a privacy row, so the store never answers `ServerError`.
- Expiry. `hasExpired` is `isPast()` (Status.php:64), which is strict,
  while `index` keeps `expires_at > now` (StatusController.php:32). At the
  instant `now == expires_at`, `show` serves the status and `index`
  already omits it (`AtExpiryShownButNotListed`).
- A status whose type is `text` but which carries an uploaded file keeps
  that file when it is deleted: `hasMedia` looks only at the type
  (`TextStatusKeepsMedia`).
- Ids listed twice. `array_diff` keeps duplicates, so an id that is not yet
  a member and is listed twice in `addUsers` gets two rows
  (`AttachRowsCount`). `store` likewise gives one row per occurrence of
  every id other than the requester. An id that is already a member never
  gets a new row (`AddUsersRows`).
- The privacy rule reads a null `selected_users` as an empty list. The
  listing's JSON query instead does not match a null list under `except`
  (`ListingRejectsNullExcept`). Rows written by the controller always hold
  a list, and on those the two agree (`ListingAgreesWithRule`).
- View recording. The code keys the view on (status, viewer, instant),
  and the store models that, although the comment on
  StatusController.php:95 says "Record the view if not already viewed".
  See Findings.

## Model

| member | source | states |
|---|---|---|
| StatusPrivacy.CanUserViewStatus | app/Models/StatusPrivacy.php:34-42 | the privacy rule; its meaning is stated by AllAdmitsEveryone, SelectedAdmitsExactlyListed, OtherTypesDenyListed, NullListIsEmpty and SelectedExceptComplementary |
| StatusPrivacy.Admits | app/Models/StatusPrivacy.php:34-42 | the rule applied to a stored privacy row; UpsertGovernsShow and AuthorAdmitsByRule state how `show` and the listing use it |
| StatusPrivacy.ListingAdmits | app/Http/Controllers/StatusController.php:19-31 | the listing's SQL predicate on one privacy row; ListingAgreesWithRule and ListingRejectsNullExcept relate it to the rule |
| StatusPrivacy.AllAdmitsEveryone | app/Models/StatusPrivacy.php:36-38 | `all` admits every viewer, whatever the list holds |
| StatusPrivacy.SelectedAdmitsExactlyListed | app/Models/StatusPrivacy.php:40-41 | under `selected`, a viewer is admitted if and only if the viewer is in the list |
| StatusPrivacy.OtherTypesDenyListed | app/Models/StatusPrivacy.php:40-41 | any type other than `all` and `selected` (so `except`) admits exactly the viewers not in the list |
| StatusPrivacy.NullListIsEmpty | app/Models/StatusPrivacy.php:40 | a null list decides like the empty list: `selected` admits nobody, `except` admits everybody |
| StatusPrivacy.SelectedExceptComplementary | app/Models/StatusPrivacy.php:40-41 | for the same list, `selected` and `except` give opposite answers for every viewer |
| StatusPrivacy.ListingAgreesWithRule | app/Http/Controllers/StatusController.php:19-31 | on a row with one of the three types and a non-null list, the listing's SQL predicate admits exactly the viewers `canUserViewStatus` admits |
| StatusPrivacy.ListingRejectsNullExcept | app/Http/Controllers/StatusController.php:26-29 | an `except` row with a null list admits the viewer in `show` but not in the listing |
| Statuses.Privacy | app/Models/Status.php:46-49 | the `privacy` relation of a status, the author's row; SameAuthorSamePrivacy and PrivacyOfUnique state which row it is |
| Statuses.HasMedia | app/Models/Status.php:54-57 | `hasMedia`; HasMediaIgnoresUrl and TextStatusKeepsMedia state what it depends on |
| Statuses.HasExpired | app/Models/Status.php:62-65 | `hasExpired`; ExpiryIsMonotone and AtExpiryShownButNotListed state its strictness and monotonicity |
| Statuses.PrivacyOf | app/Models/Status.php:46-49 | the found row belongs to the author and is in the table; none is found exactly when the author owns no row |
| Statuses.SameAuthorSamePrivacy | app/Models/Status.php:46-49 | the relation goes through `user_id`, so two statuses of one author share one privacy row |
| Statuses.ExpiryIsMonotone | app/Models/Status.php:62-65 | once a status has expired it stays expired at every later instant |
| Statuses.HasMediaIgnoresUrl | app/Models/Status.php:54-57 | `hasMedia` holds exactly for `image` and `video` and does not depend on `media_url` |
| Statuses.Viewers | app/Models/Status.php:38-41 | the `viewers` relation holds exactly the view rows whose `status_id` is the status |
| Messages.HasMedia | app/Models/Message.php:47-50 | the message's `hasMedia`; HasMediaByTypeOnly states which types have media |
| Messages.NewMessage | database/migrations/2024_03_19_000001_create_chats_table.php:33-36 | a new message has `is_delivered` and `is_seen` false and takes type `text` when none is given |
| Messages.HasMediaByTypeOnly | app/Models/Message.php:47-50 | of the five accepted types only `text` has no media; an attached file does not change `hasMedia` |
| Chats.IsGroupChat | app/Models/Chat.php:50-53 | `isGroupChat`; GroupChatByType states which types make a group |
| Chats.GroupChatByType | app/Models/Chat.php:50-53 | of the two accepted types exactly `group` makes a group chat, and a chat created without a type is private, not a group |
| Chats.Users | app/Models/Chat.php:23-28 | the `users` relation, the chat's `chat_user` rows; AdminsAreFlaggedMembers and NewChatUsers state its contents |
| Chats.Admins | app/Models/Chat.php:41-45 | the `admins` relation; AdminsAreFlaggedMembers states its contents |
| Chats.MemberIds | app/Http/Controllers/ChatController.php:126 | `$chat->users()->pluck('user_id')`, the set of the chat's member ids; MemberIdsAfterAttach, AddUsersRows and DetachRemovesExactlyListed state how it changes |
| Chats.IsMember | app/Http/Controllers/ChatController.php:63 | `users()->where('user_id', …)->exists()`; MemberGateAdmitsOnlyMembers and MemberIdsAfterAttach state its use |
| Chats.IsAdmin | app/Http/Controllers/ChatController.php:117 | `admins()->where('user_id', …)->exists()`; AdminGateAdmitsOnlyGroupAdmins and AdminsAreFlaggedMembers state its use |
| Chats.NewChat | database/migrations/2024_03_19_000001_create_chats_table.php:13-15 | a new chat takes type `private` when none is given and has no image |
| Chats.NewMember | database/migrations/2024_03_19_000001_create_chats_table.php:23-24 | a new membership row is not admin unless said so and has no last-read time |
| Chats.AdminsAreFlaggedMembers | app/Models/Chat.php:41-45 | `admins` is exactly the chat's membership rows with `is_admin` set, is row-for-row contained in `users`, and every admin id is a member id |
| ChatController.ValidUserList | app/Http/Controllers/ChatController.php:35-36 | the `users` rules shared by `store`, `addUsers` and `removeUsers`; the stores' contracts state that a failing list changes nothing |
| ChatController.ValidChatRequest | app/Http/Controllers/ChatController.php:32-37 | the rules of `store`, a group's name required to be non-blank; ChatStore.Store answers 422 and changes nothing when they fail |
| ChatController.BlankFieldIsMissing | app/Http/Controllers/ChatController.php:34-85 | a group whose name is missing or blank, and a message without a file whose content is missing or blank, both fail validation |
| ChatController.ValidMessageRequest | app/Http/Controllers/ChatController.php:84-88 | the rules of `sendMessage`, content required to be non-blank when no file comes; ChatStore.SendMessage answers 422 and changes nothing when they fail |
| ChatController.MemberGate | app/Http/Controllers/ChatController.php:63-65 | the binding and member check of `messages`, `sendMessage` and `markAsRead`; MemberGateAdmitsOnlyMembers states when it passes |
| ChatController.AdminGate | app/Http/Controllers/ChatController.php:116-119 | the binding and admin check of `addUsers` and `removeUsers`; AdminGateAdmitsOnlyGroupAdmins states when it passes |
| ChatController.MemberGateAdmitsOnlyMembers | app/Http/Controllers/ChatController.php:63-65 | the member check passes if and only if the chat exists and the requester has a row in it |
| ChatController.AdminGateAdmitsOnlyGroupAdmins | app/Http/Controllers/ChatController.php:116-119 | the admin check passes if and only if the chat exists, is a group, and the requester has an admin row in it; whoever passes it also passes the member check |
| ChatController.AttachRows | app/Http/Controllers/ChatController.php:129-131 | one non-admin row per listed id, in list order |
| ChatController.AttachRowsAppend | app/Http/Controllers/ChatController.php:129-131 | attaching one more id appends exactly its row |
| ChatController.AttachRowsCount | app/Http/Controllers/ChatController.php:129-131 | each id gets as many rows as it has occurrences in the list; every row is a non-admin row of that chat for a listed id |
| ChatController.StoreRows | app/Http/Controllers/ChatController.php:45-53 | the rows `store` attaches; StoreRowsAppend, StoreRowsCreator and StoreRowsOthers state what they are |
| ChatController.StoreRowsAppend | app/Http/Controllers/ChatController.php:49-53 | one loop step adds a row for the listed id exactly when it is not the requester |
| ChatController.StoreRowsCreator | app/Http/Controllers/ChatController.php:45-53 | creating a chat gives the requester exactly one row, admin exactly when the chat is a group, even when the requester is in the list |
| ChatController.StoreRowsOthers | app/Http/Controllers/ChatController.php:49-53 | every other listed id gets one non-admin row per occurrence in the list |
| ChatController.NewChatUsers | app/Http/Controllers/ChatController.php:55 | the new chat's `users` are exactly the rows inserted for it |
| ChatController.NewUserIds | app/Http/Controllers/ChatController.php:126-127 | `array_diff` of the list against the member ids; AddUsersRows and AddUsersIdempotent state its effect |
| ChatController.MemberIdsAfterAttach | app/Http/Controllers/ChatController.php:129-131 | after attaching, the chat's member ids are the old ones plus the listed ids |
| ChatController.AddUsersRows | app/Http/Controllers/ChatController.php:126-131 | an id that already has a row gets no new row; any other listed id gets one row per occurrence |
| ChatController.AddUsersIdempotent | app/Http/Controllers/ChatController.php:126-131 | after `addUsers`, every listed id is a member, so repeating the same call adds nothing |
| ChatController.Detach | app/Http/Controllers/ChatController.php:151 | `detach` of the listed ids; DetachRemovesExactlyListed and DetachNonMembersIsNoOp state its effect |
| ChatController.DetachRemovesExactlyListed | app/Http/Controllers/ChatController.php:151 | after `detach` the chat's member ids are the old ones minus the listed ids, and every other row keeps its multiplicity |
| ChatController.DetachNonMembersIsNoOp | app/Http/Controllers/ChatController.php:151 | detaching ids that have no row in the chat leaves the table unchanged |
| ChatController.MarkRead | app/Http/Controllers/ChatController.php:165-167 | the table keeps its length, and every row keeps its chat, user and admin flag |
| ChatController.MarkReadFrame | app/Http/Controllers/ChatController.php:165-167 | the requester's rows in the chat get last-read `now` and every other row is unchanged; member and admin ids of every chat are kept; marking twice equals marking once |
| ChatController.ChatMessages | app/Models/Chat.php:33-36 | the chat's `messages` relation in insertion order; SentMessageLeadsFirstPage and MessagesNewestFirst state how it is listed |
| ChatController.MessagesNewestFirst | app/Http/Controllers/ChatController.php:69 | over messages saved in clock order, a chat's list is sorted by `created_at`, newest first |
| ChatController.CurrentPage | app/Http/Controllers/ChatController.php:70 | the page the paginator reads, a page below 1 read as page 1; Page and PageHoldsEveryItem state which items it holds |
| ChatController.Page | app/Http/Controllers/ChatController.php:67-70 | a page holds exactly min(50, items left from its start) items, none past the end, and item k of page p is item (p-1)*50+k of the list, with a page below 1 read as page 1 |
| ChatController.PageHoldsEveryItem | app/Http/Controllers/ChatController.php:70 | item i of the list is item i mod 50 of page i div 50 + 1 |
| ChatController.SentMessageLeadsFirstPage | app/Http/Controllers/ChatController.php:67-70 | a message just saved to a chat is the first item of that chat's first page |
| ChatController.FirstPageStartsList | app/Http/Controllers/ChatController.php:70 | page 1 of a non-empty list starts with its first item |
| ChatController.ChatStore.constructor | database/migrations/2024_03_19_000001_create_chats_table.php:11-38 | the tables start empty and consistent |
| ChatController.ChatStore.Store | app/Http/Controllers/ChatController.php:30-56 | invalid requests change nothing (422); otherwise one chat is added under a fresh id, the membership table grows by exactly the store rows, and those rows are the new chat's `users` (201) |
| ChatController.ChatStore.Messages | app/Http/Controllers/ChatController.php:61-73 | non-members get 403 or 404 and nothing; members get the requested page of the chat's messages, newest first |
| ChatController.ChatStore.SendMessage | app/Http/Controllers/ChatController.php:78-109 | members with a valid request append one message authored by them with the next id, and their last-read time becomes `now` (201); otherwise nothing changes |
| ChatController.ChatStore.AddUsers | app/Http/Controllers/ChatController.php:114-134 | only a group admin with a valid list succeeds; the ids not yet members are then attached as non-admins, and nothing else changes |
| ChatController.ChatStore.RemoveUsers | app/Http/Controllers/ChatController.php:139-154 | only a group admin with a valid list succeeds; every row of the chat whose id is listed is then removed |
| ChatController.ChatStore.MarkAsRead | app/Http/Controllers/ChatController.php:159-170 | members get the mark-read update; others get 403 or 404 and no change |
| StatusController.ValidPrivacyRequest | app/Http/Controllers/StatusController.php:141-145 | the privacy rules of `store` and `updatePrivacy`; StatusStore.UpdatePrivacy answers 422 and changes nothing when they fail |
| StatusController.ValidStatusRequest | app/Http/Controllers/StatusController.php:45-52 | the rules of `store`, content required to be non-blank when no media comes; StatusStore.Store answers 422 and changes nothing when they fail |
| StatusController.BlankStatusIsMissing | app/Http/Controllers/StatusController.php:47 | a status without media whose content is missing or blank fails validation |
| StatusController.RequestedPrivacy | app/Http/Controllers/StatusController.php:71-74 | the row `updateOrCreate` writes, a missing list stored as `[]`; StatusStore.Store and UpdatePrivacy state that it governs the author's statuses |
| StatusController.Upsert | app/Http/Controllers/StatusController.php:69-75 | `updateOrCreate` keyed on `user_id`; UpsertRows, UpsertLookup and UpsertKeepsAuthorsUnique state its effect |
| StatusController.UpsertRows | app/Http/Controllers/StatusController.php:69-75 | the upsert writes no row but the new one, and afterwards the author owns a row |
| StatusController.UpsertLookup | app/Http/Controllers/StatusController.php:147-153 | after the upsert the author's row is the new one and every other author's row is unchanged; a row is added only for an author without one |
| StatusController.UpsertKeepsAuthorsUnique | app/Http/Controllers/StatusController.php:147-153 | the upsert keeps one privacy row per author |
| StatusController.UpsertGovernsShow | app/Http/Controllers/StatusController.php:87-93 | after a privacy update, `show` decides every status of the author, old or new, by the new row alone |
| StatusController.PrivacyOfUnique | app/Models/Status.php:46-49 | with one row per author, the relation finds that row |
| StatusController.FirstOrCreate | app/Http/Controllers/StatusController.php:96-100 | the view table as written: the given triple is present afterwards, only it can be new, and it is added at most once |
| StatusController.FirstOrCreateKeepsDistinct | app/Http/Controllers/StatusController.php:96-100 | recording a view never makes a row occur twice |
| StatusController.FirstOrCreateIdempotent | app/Http/Controllers/StatusController.php:96-100 | recording the same triple twice equals recording it once |
| StatusController.LaterViewAddsSecondRow | app/Http/Controllers/StatusController.php:96-100 | as written, two views of one status by one viewer at different instants leave at least two rows for that pair |
| StatusController.FirstViewOf | app/Http/Controllers/StatusController.php:95 | finds a view row of the given pair exactly when one exists |
| StatusController.RecordFirstView | app/Http/Controllers/StatusController.php:95-100 | the corrected recording: old rows are kept, and a row is added only when the pair has none yet |
| StatusController.FirstViewWins | app/Http/Controllers/StatusController.php:95-100 | the pair's row carries the time of its first view; any later view changes nothing |
| StatusController.ViewRecordedOnce | app/Http/Controllers/StatusController.php:95-100 | recording keeps one row per pair, and afterwards the pair has exactly one row |
| StatusController.AtMostOneRowPerPair | app/Http/Controllers/StatusController.php:95-100 | with one row per pair, filtering by a pair leaves at most one row |
| StatusController.FindStatus | app/Http/Controllers/StatusController.php:83 | route binding finds a status with that id exactly when one exists |
| StatusController.FindStatusUnique | app/Http/Controllers/StatusController.php:83 | with unique ids, binding finds the only status that has the id |
| StatusController.AppendFreshId | app/Http/Controllers/StatusController.php:66 | saving a status whose id exceeds all others keeps ids unique |
| StatusController.ShowOutcome | app/Http/Controllers/StatusController.php:83-93 | the answer of `show`; ShowChecksPrivacyFirst, UpsertGovernsShow and IndexAgreesWithShow state its meaning |
| StatusController.ShowChecksPrivacyFirst | app/Http/Controllers/StatusController.php:87-93 | a denied viewer gets 403 at every instant; an admitted viewer gets 410 for an expired status and 200 otherwise |
| StatusController.AuthorAdmits | app/Http/Controllers/StatusController.php:19-31 | `whereHas('privacy', …)` for one author; AuthorAdmitsByRule relates it to the rule |
| StatusController.Index | app/Http/Controllers/StatusController.php:16-38 | the listing holds exactly the statuses expiring after `now` whose author's privacy row admits the viewer |
| StatusController.IndexAgreesWithShow | app/Http/Controllers/StatusController.php:16-38 | on well-formed privacy rows, every listed status is one `show` serves, and every status `show` serves is listed, except at its exact expiry instant |
| StatusController.AuthorAdmitsByRule | app/Http/Controllers/StatusController.php:19-31 | on well-formed rows, the listing's `whereHas` admits exactly when the author's row exists and `canUserViewStatus` admits |
| StatusController.AtExpiryShownButNotListed | app/Models/Status.php:62-65 | at `now == expires_at` the status is served by `show` but missing from the listing |
| StatusController.NoPrivacyRowNeverListed | app/Http/Controllers/StatusController.php:19 | a status whose author has no privacy row is never listed, and `show` fails on it |
| StatusController.MyStatuses | app/Http/Controllers/StatusController.php:126-134 | the result holds exactly the user's statuses, live or expired |
| StatusController.MyStatusesComplete | app/Http/Controllers/StatusController.php:128-131 | each of the user's statuses occurs as often as in the table |
| Common.Blank | app/Http/Controllers/ChatController.php:34 | a string that `required` rejects, empty once trimmed; BlankIffAllTrimmed states its meaning |
| Common.BlankIffAllTrimmed | app/Http/Controllers/StatusController.php:47 | a string is blank exactly when every character is one PHP's `trim` strips (space, tab, newline, carriage return, NUL, vertical tab) |
| Common.Given | app/Http/Controllers/ChatController.php:85 | a string field that `required_if`/`required_without` count as given: present and not blank; BlankFieldIsMissing and BlankStatusIsMissing state its use |
| Common.NewestFirst | app/Http/Controllers/StatusController.php:34 | `latest()` over rows kept in insertion order: the same rows reversed, item i being item n-1-i |
| StatusController.ListingsNewestFirst | app/Http/Controllers/StatusController.php:34 | over rows saved in clock order, both listings are sorted by creation time, newest first |
| StatusController.MediaToDelete | app/Http/Controllers/StatusController.php:114-116 | the paths `destroy` deletes; TextStatusKeepsMedia and StatusStore.Destroy state when there is one |
| StatusController.DestroyOutcome | app/Http/Controllers/StatusController.php:110-112 | the owner check of `destroy`; StatusStore.Destroy states that only the author changes anything |
| StatusController.RemoveStatus | app/Http/Controllers/StatusController.php:118 | `$status->delete()`; RemoveKeepsOthers states its effect |
| StatusController.Cascade | database/migrations/2024_03_19_000002_create_statuses_table.php:23 | the `onDelete('cascade')` of `status_viewers.status_id`; CascadeKeepsOthers states its effect |
| StatusController.TextStatusKeepsMedia | app/Http/Controllers/StatusController.php:114-116 | deleting a `text` status deletes no file |
| StatusController.RemoveKeepsOthers | app/Http/Controllers/StatusController.php:118 | after deletion the status is no longer found, and every other status is found as before |
| StatusController.CascadeKeepsOthers | database/migrations/2024_03_19_000002_create_statuses_table.php:23 | the cascade leaves the deleted status no views and every other status its views |
| StatusController.InsertKeepsStatusesValid | app/Http/Controllers/StatusController.php:54-66 | saving the next status keeps ids unique and below the next id, with a path for every media status |
| StatusController.UpsertKeepsPrivacyValid | app/Http/Controllers/StatusController.php:69-75 | the upsert keeps one well-formed row per author and adds the author to the owners of a row |
| StatusController.InsertKeepsViewsValid | app/Http/Controllers/StatusController.php:66 | a new status keeps every view attached to an existing status, with no duplicate rows |
| StatusController.StatusStore.constructor | database/migrations/2024_03_19_000002_create_statuses_table.php:11-35 | the tables start empty and consistent, and every author has privacy |
| StatusController.StatusStore.Store | app/Http/Controllers/StatusController.php:43-78 | invalid requests change nothing (422); otherwise a status of the requester expiring 24 hours from `now` is appended under the next id, the requester's privacy row is upserted, and that row now governs the status (201) |
| StatusController.StatusStore.UpdatePrivacy | app/Http/Controllers/StatusController.php:139-156 | a valid request upserts the requester's row and touches no status, and every status of the requester is then governed by the new row; an invalid one changes nothing |
| StatusController.StatusStore.Show | app/Http/Controllers/StatusController.php:83-103 | answers 404, then 500 without privacy, then 403, then 410, then 200, and never 500 when every author has privacy; only on 200 does the view table change, and then the triple (status, viewer, now) is present and every earlier row is kept; the status's views are returned |
| StatusController.StatusStore.Destroy | app/Http/Controllers/StatusController.php:108-121 | only the author succeeds; the status and, by cascade, its views are then removed, and its media path is queued for deletion when `hasMedia` holds; otherwise nothing changes |
| Scenarios.TeamChat | app/Http/Controllers/ChatController.php:30-154 | A creates group "Team" with B and sends "hi"; B sees it alone on page 1; non-admin C gets 403 removing B; admin A removes B, who is no longer a member |
| Scenarios.ExceptThenAll | app/Http/Controllers/StatusController.php:83-153 | under `except [B]`, viewer C is admitted and recorded once and B gets 403; after A switches to `all`, B is admitted |
| Scenarios.ExpiredStatus | app/Http/Controllers/StatusController.php:16-103 | one second past 24 hours, `show` answers 410 to an admitted viewer and the listing is empty |

## Findings

| source | as written | input that shows it | evidently intended | confidence | as-written member | corrected member |
|---|---|---|---|---|---|---|
| app/Http/Controllers/StatusController.php:96-100 | `viewed_at => now()` is part of the `firstOrCreate` lookup key, and `status_viewers` has no unique index, so a repeat view at another instant matches no row and inserts another | viewer 3 opens status 1 at t=1100 and again at t=1200: two rows for the pair (1, 3) | key on (`status_id`, `user_id`) with `viewed_at` as the value to create, as the comment on line 95 says; repeat views leave the first row alone | high, not executed | StatusController.LaterViewAddsSecondRow | StatusController.FirstViewWins |

`StatusController.FirstOrCreate` is the recording as written.
`StatusController.RecordFirstView` is the corrected one, keyed on the pair.
`FirstViewWins` and `ViewRecordedOnce` are proved about it.
`StatusStore.Show` keeps the recording as written, so the store answers as
the deployed code does. Replacing `FirstOrCreate` there with
`RecordFirstView` gives the intended behaviour.

## Left out

- `ChatController::index` (the list of the user's chats with an eager-loaded latest message) is not modelled. It only reads, and its per-chat `latest()->first()` constraint is an ordering point of the query builder rather than logic of the core.
- JSON bodies and eager loading (`load('users')`, `with('user')`, `viewers.user`) are not modelled: the methods return answer codes and rows, not serialized payloads.
- File storage: an uploaded file appears only as the path it would be stored under; the size limits (`max:10240`, `max:20480`) and the `file` rule are not modelled.
- ChatController.ChatStore.SendMessage: does not model the insert failure that a message without content meets, because `messages.content` is NOT NULL (create_chats_table.php:32) while validation lets a file-only message through; the model stores the missing content as `None`.
- The `StatusPrivacy` model declares no `$table` (app/Models/StatusPrivacy.php:9-17), so Eloquent's default table name is `status_privacies`, while the migration creates `status_privacy` (create_statuses_table.php:29). With only these migrations, every privacy query (StatusController.php:19, 69, 87, 147) would fail with a query error. This is not executed and not modelled: the model treats the relation as reading the `status_privacy` table.
- Laravel's `TrimStrings` and `ConvertEmptyStringsToNull` middleware are not modelled: a blank string counts as missing for the `required` rules, but a field that is given (content beside a file, a private chat's name) is stored as sent, not trimmed or turned into null.
- Validation rules that only check PHP types (`string`, `array`) are not modelled: the parameters already have those types.
- PHP's strict `!==` between a request id (possibly a numeric string) and the integer user id in `store` is modelled as integer inequality.
- `latest()` orders by `created_at`; the model orders by insertion, which matches on a monotone clock. Ties between equal timestamps are not modelled.
- ChatController.ChatStore.SendMessage: accepts any `now`, so the store may hold a chat's messages out of `created_at` order, and then `ChatStore.Messages` lists them newest-inserted first rather than by `created_at`; `MessagesNewestFirst` (and `ListingsNewestFirst` for statuses) state that the two orders agree when rows are saved in clock order.
- SQL NULL semantics beyond the `except` list (for example an unknown `privacy_type`) are not modelled: rows written by the controllers always hold one of the three types.
- Transactions and concurrency: each method is one atomic step; racing requests are not modelled.
- Timestamps other than the creation times of statuses and messages (`statuses.created_at`, `messages.created_at`, both set to `now`) are not modelled: `updated_at` and the pivot timestamps play no part in the core.
- `chats.image`, `messages.is_delivered` and `messages.is_seen` are carried with their defaults; the core never changes them.
- app/Models/User.php and app/Models/StatusViewer.php define relations only; they appear as the `directory` parameter and as `Statuses.ViewerRow`.
- Statuses.Viewers: states which rows belong to the status, not their order.
